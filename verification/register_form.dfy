/** The client-side registration form schema: the rules each field must
    pass before the form is posted, and the values that are posted (the
    USN upper-cased, everything else as typed). */
module RegisterForm {
  import opened Wrappers
  import opened Text
  import opened Records

  datatype FormInput = FormInput(name: string, usn: string, email: string, year: string, phone: string)

  datatype Field = NameField | UsnField | EmailField | YearField | PhoneField

  // ---------------------------------------------------------------------
  // USN: `^[0-9][A-Z]{2}[0-9]{2}[A-Z]{2}[0-9]{3}$` after toUpperCase
  // ---------------------------------------------------------------------

  datatype CharClass = DigitClass | UpperClass

  predicate InClass(c: char, k: CharClass)
  {
    match k
    case DigitClass => IsDigit(c)
    case UpperClass => IsUpper(c)
  }

  /** The character class of each of the ten positions. */
  const UsnShape: seq<CharClass> :=
    [DigitClass, UpperClass, UpperClass, DigitClass, DigitClass,
     UpperClass, UpperClass, DigitClass, DigitClass, DigitClass]

  predicate UsnPattern(s: string)
  {
    |s| == |UsnShape| && forall i :: 0 <= i < |s| ==> InClass(s[i], UsnShape[i])
  }

  predicate AllUpper(s: string)
  {
    forall i :: 0 <= i < |s| ==> IsUpper(s[i])
  }

  /** The pattern read group by group, as the regular expression is
      written: one digit, two letters, two digits, two letters, three
      digits. */
  lemma UsnPatternGroups(s: string)
    ensures UsnPattern(s) <==>
              && |s| == 10
              && AllDigits(s[..1]) && AllUpper(s[1..3]) && AllDigits(s[3..5])
              && AllUpper(s[5..7]) && AllDigits(s[7..])
  {
    if |s| == 10 {
      assert forall i :: 0 <= i < 1 ==> s[..1][i] == s[i];
      assert forall i :: 0 <= i < 2 ==> s[1..3][i] == s[1 + i] && s[3..5][i] == s[3 + i] && s[5..7][i] == s[5 + i];
      assert forall i :: 0 <= i < 3 ==> s[7..][i] == s[7 + i];
    }
  }

  /** The USN field: upper-cased, then matched. */
  predicate UsnValid(raw: string)
  {
    UsnPattern(Upper(raw))
  }

  /** A matching USN is already in upper case, so the posted value is the
      normal form of every spelling that passes. */
  lemma UsnPatternIsUpperCase(s: string)
    requires UsnPattern(s)
    ensures Upper(s) == s
  {
  }

  /** Case does not matter to the USN rule: an input passes exactly when
      its upper-case and its lower-case spellings pass. */
  lemma UsnValidIgnoresCase(raw: string)
    ensures UsnValid(raw) <==> UsnValid(Upper(raw))
    ensures UsnValid(raw) <==> UsnValid(Lower(raw))
  {
    assert Upper(Upper(raw)) == Upper(raw);
    assert Upper(Lower(raw)) == Upper(raw);
  }

  /** The example shown in the USN field satisfies the rule. */
  lemma PlaceholderUsnValid()
    ensures UsnValid("4MW21AD043")
    ensures UsnValid("4mw21ad043")
  {
    assert Upper("4MW21AD043") == "4MW21AD043";
    assert Upper("4mw21ad043") == "4MW21AD043";
  }

  // ---------------------------------------------------------------------
  // Email: `^[a-zA-Z0-9._%+-]+@sode-edu\.in$`
  // ---------------------------------------------------------------------

  const Domain: string := "@sode-edu.in"

  predicate LocalChar(c: char)
  {
    IsUpper(c) || IsLower(c) || IsDigit(c) || c == '.' || c == '_' || c == '%' || c == '+' || c == '-'
  }

  predicate EmailValid(s: string)
  {
    && |s| > |Domain|
    && s[|s| - |Domain|..] == Domain
    && forall i :: 0 <= i < |s| - |Domain| ==> LocalChar(s[i])
  }

  /** An address is valid exactly when it is a non-empty local part over
      the allowed characters followed by the institutional domain. */
  lemma EmailValidIff(local: string)
    ensures EmailValid(local + Domain) <==> |local| >= 1 && forall i :: 0 <= i < |local| ==> LocalChar(local[i])
  {
    var s := local + Domain;
    assert s[|s| - |Domain|..] == Domain;
    assert forall i :: 0 <= i < |local| ==> s[i] == local[i];
  }

  /** Every valid address splits that way, and only that way: `@` is not a
      local-part character. */
  lemma EmailValidSplits(s: string)
    requires EmailValid(s)
    ensures s == s[..|s| - |Domain|] + Domain
    ensures forall k :: 0 <= k < |s| && s[k] == '@' ==> k == |s| - |Domain|
  {
  }

  /** The domain is compared with its case: an upper-case domain fails. */
  lemma DomainIsCaseSensitive()
    ensures EmailValid("abc@sode-edu.in")
    ensures !EmailValid("abc@SODE-EDU.IN")
  {
    EmailValidIff("abc");
    var t := "abc@SODE-EDU.IN";
    assert t[|t| - |Domain|..][1] == 'S';
  }

  // ---------------------------------------------------------------------
  // Name, year, phone
  // ---------------------------------------------------------------------

  /** Lengths are JavaScript lengths, counted in UTF-16 code units. */
  predicate NameValid(name: string) { Utf16Length(name) >= 2 }

  /** The year select: an empty placeholder and the years 1 to 4. */
  const YearOptions: seq<string> := ["", "1", "2", "3", "4"]

  predicate YearValid(year: string) { |year| > 0 }

  /** Only the placeholder of the year select fails the year rule. */
  lemma YearOptionsValid()
    ensures forall i :: 0 <= i < |YearOptions| ==> (YearValid(YearOptions[i]) <==> i > 0)
  {
  }

  /** The phone rule counts characters and does not look at them. */
  predicate PhoneValid(phone: string) { Utf16Length(phone) == 10 }

  lemma PhoneDigitsNotChecked()
    ensures PhoneValid("12345abcde")
    ensures !PhoneValid("123456789")
  {
  }

  /** A character outside the Basic Multilingual Plane counts twice: one
      emoji is a long enough name, and nine digits and an emoji are too
      long for a phone. */
  lemma LengthsCountCodeUnits()
    ensures NameValid("\U{1F600}")
    ensures !PhoneValid("123456789\U{1F600}")
    ensures PhoneValid("12345678\U{1F600}")
  {
    var e := '\U{1F600}';
    Utf16LengthOfChar(e);
    assert "\U{1F600}" == [e];
    var nine, eight := "123456789", "12345678";
    assert forall i :: 0 <= i < |nine| ==> InBmp(nine[i]);
    assert forall i :: 0 <= i < |eight| ==> InBmp(eight[i]);
    Utf16LengthAppend(nine, [e]);
    Utf16LengthAppend(eight, [e]);
    assert "123456789\U{1F600}" == nine + [e];
    assert "12345678\U{1F600}" == eight + [e];
  }

  // ---------------------------------------------------------------------
  // The whole form
  // ---------------------------------------------------------------------

  function FieldErrors(f: FormInput): set<Field>
  {
    (if NameValid(f.name) then {} else {NameField})
    + (if UsnValid(f.usn) then {} else {UsnField})
    + (if EmailValid(f.email) then {} else {EmailField})
    + (if YearValid(f.year) then {} else {YearField})
    + (if PhoneValid(f.phone) then {} else {PhoneField})
  }

  /** Validation of the form: either the body that is posted, or the set of
      fields whose messages are shown. */
  function Parse(f: FormInput): (r: Result<Record, set<Field>>)
    ensures r.Success? <==> NameValid(f.name) && UsnValid(f.usn) && EmailValid(f.email) && YearValid(f.year) && PhoneValid(f.phone)
    ensures r.Success? ==> r.value == Record(f.name, Upper(f.usn), f.email, f.year, f.phone)
    ensures r.Success? ==> UsnPattern(r.value.usn) && EmailValid(r.value.email)
    ensures r.Failure? ==> r.error != {}
    ensures r.Failure? ==> (UsnField in r.error <==> !UsnValid(f.usn)) && (EmailField in r.error <==> !EmailValid(f.email))
    ensures r.Failure? ==> (NameField in r.error <==> !NameValid(f.name)) && (YearField in r.error <==> !YearValid(f.year))
    ensures r.Failure? ==> (PhoneField in r.error <==> !PhoneValid(f.phone))
  {
    var errors := FieldErrors(f);
    if errors == {} then Success(Record(f.name, Upper(f.usn), f.email, f.year, f.phone))
    else Failure(errors)
  }
}
