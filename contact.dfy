/**
 * `extract_contact_info(text, filename)`: the record of one resume, built
 * from the five field rules and the file name.
 */
module Contact {
  import opened Text
  import Email
  import Phone
  import Name
  import Experience
  import Location

  /** The dictionary the source returns, one field per key. */
  datatype ContactInfo = ContactInfo(
    name: string,
    phone: string,
    email: string,
    yearsOfExperience: string,
    location: string,
    filename: string)

  /** The keys of the returned dictionary. */
  const Keys: set<string> := {"Name", "Phone", "Email", "Years of Experience", "Location", "Filename"}

  /** The record of a resume whose text is `text`. The location is passed
      through `location if location else ""`, which leaves it as it is. */
  function ContactInfoOf(text: string, filename: string): ContactInfo
  {
    var location := Location.LocationOf(text);
    ContactInfo(
      Name.NameOf(text),
      Phone.PhoneOf(text),
      Email.EmailOf(text),
      Experience.ExperienceOf(text),
      if location != "" then location else "",
      filename)
  }

  /** The record as the dictionary the source builds. */
  function AsDict(info: ContactInfo): (d: map<string, string>)
    ensures d.Keys == Keys
  {
    map[
      "Name" := info.name,
      "Phone" := info.phone,
      "Email" := info.email,
      "Years of Experience" := info.yearsOfExperience,
      "Location" := info.location,
      "Filename" := info.filename]
  }

  /** The function as the source writes it: the name loop and the experience
      loop are methods of their own. */
  method ExtractContactInfo(text: string, filename: string) returns (info: ContactInfo)
    ensures info == ContactInfoOf(text, filename)
  {
    var email := Email.EmailOf(text);
    var phone := Phone.PhoneOf(text);
    var name := Name.ExtractName(text);
    var experience := Experience.ExtractExperience(text);
    var location := Location.LocationOf(text);
    info := ContactInfo(name, phone, email, experience, if location != "" then location else "", filename);
  }

  /** Reads the record back from a dictionary with the six keys. */
  function FromDict(d: map<string, string>): ContactInfo
    requires Keys <= d.Keys
  {
    ContactInfo(d["Name"], d["Phone"], d["Email"], d["Years of Experience"], d["Location"], d["Filename"])
  }

  /** Each key holds its own field: reading the dictionary back gives the
      record it was built from. */
  lemma {:induction false} DictRoundTrip(info: ContactInfo)
    ensures FromDict(AsDict(info)) == info
  {
    var d := AsDict(info);
    assert d["Name"] == info.name;
    assert d["Phone"] == info.phone;
    assert d["Email"] == info.email;
    assert d["Years of Experience"] == info.yearsOfExperience;
    assert d["Location"] == info.location;
    assert d["Filename"] == info.filename;
  }

  /** What each field can hold: the name is free of digits, `@` and "http";
      the phone and the e-mail are "" or a full match of their pattern; the
      experience is "N/A" or a non-empty string of digits; the location is ""
      or one of the ten canonical city names. */
  lemma ContactInfoFields(text: string, filename: string)
    ensures var info := ContactInfoOf(text, filename);
      && info.filename == filename
      && !HasDigit(info.name) && '@' !in info.name
      && (info.phone == "" || Phone.IsPhoneMatch(info.phone))
      && (info.email == "" || Email.IsEmailMatch(info.email))
      && (info.yearsOfExperience == "N/A" || (info.yearsOfExperience != [] && AllDigits(info.yearsOfExperience)))
      && (info.location == "" || info.location in Location.CityNames)
  {
    Name.NameOfIsClean(text);
    Phone.PhoneOfSpec(text);
    Email.EmailOfSpec(text);
    Experience.ExperienceOfSpec(text);
    Location.LocationIsCanonical(text);
  }
}
