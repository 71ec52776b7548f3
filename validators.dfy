/**
 * The reservation form's validator table: one pure function per field that returns
 * the empty string when the value is acceptable and a fixed Spanish message otherwise.
 */
module Validators {
  import opened Wrappers
  import opened Text
  import EmailPattern
  import PhonePattern

  const NombreRequired := "Por favor, introduce tu nombre"
  const NombreTooShort := "El nombre debe tener al menos 3 caracteres"
  const EmailRequired := "Por favor, introduce tu email"
  const EmailInvalid := "Por favor, introduce un email válido"
  const TelefonoRequired := "Por favor, introduce tu teléfono"
  const TelefonoInvalid := "Por favor, introduce un teléfono válido"
  const PersonasRequired := "Por favor, selecciona el número de personas"
  const FechaRequired := "Por favor, selecciona una fecha"
  const FechaPast := "Por favor, selecciona una fecha futura"
  const HoraRequired := "Por favor, selecciona una hora"

  /**
   * What the date check reads from the clock and the date parser, as day numbers:
   * `today` is the current day (time of day zeroed) and `picked` the day the date
   * field's value denotes.
   */
  datatype Calendar = Calendar(today: int, picked: int)

  /** The fields the table has a validator for. */
  datatype Field = Nombre | Email | Telefono | Personas | Fecha | Hora

  /** The table's keys, in the order they are declared (the order submission visits them). */
  const FieldOrder: seq<string> := ["nombre", "email", "telefono", "personas", "fecha", "hora"]

  function Key(f: Field): (name: string)
    ensures name in FieldOrder
  {
    match f
    case Nombre => "nombre"
    case Email => "email"
    case Telefono => "telefono"
    case Personas => "personas"
    case Fecha => "fecha"
    case Hora => "hora"
  }

  /** No name occurs twice in `names`. */
  predicate Distinct(names: seq<string>)
  {
    forall i, j :: 0 <= i < j < |names| ==> names[i] != names[j]
  }

  /** No key of the table occurs twice. */
  lemma FieldOrderDistinct()
    ensures Distinct(FieldOrder)
  {
  }

  /** Looking a name up in the table. */
  function FieldNamed(name: string): (f: Option<Field>)
    ensures f.Some? <==> name in FieldOrder
    ensures f.Some? ==> Key(f.value) == name
  {
    if name == "nombre" then Some(Nombre)
    else if name == "email" then Some(Email)
    else if name == "telefono" then Some(Telefono)
    else if name == "personas" then Some(Personas)
    else if name == "fecha" then Some(Fecha)
    else if name == "hora" then Some(Hora)
    else None
  }

  /** Key and lookup are inverse: every field is found under its own key. */
  lemma FieldNamedKey(f: Field)
    ensures FieldNamed(Key(f)) == Some(f)
  {
  }

  /**
   * The name must be at least three UTF-16 code units long once surrounding whitespace
   * is trimmed (a character above U+FFFF counts twice).
   */
  function ValidateNombre(value: string): (msg: string)
    ensures msg == "" <==> Utf16Length(Trim(value)) >= 3
    ensures AllSpace(value) ==> msg == NombreRequired
    ensures !AllSpace(value) && Utf16Length(Trim(value)) < 3 ==> msg == NombreTooShort
  {
    if Trim(value) == "" then NombreRequired
    else if Utf16Length(Trim(value)) < 3 then NombreTooShort
    else ""
  }

  /**
   * A non-blank value must match the e-mail pattern as it is, untrimmed: no whitespace,
   * exactly one `@` with text before it, and a `.` with text on both sides after it.
   */
  function ValidateEmail(value: string): (msg: string)
    ensures msg == "" <==> EmailPattern.Shape(value)
    ensures AllSpace(value) ==> msg == EmailRequired
    ensures !AllSpace(value) && !EmailPattern.Shape(value) ==> msg == EmailInvalid
  {
    EmailPattern.ParseDecides(value);
    EmailPattern.MatchesIffShape(value);
    if Trim(value) == "" then EmailRequired
    else if EmailPattern.Parse(value).None? then EmailInvalid
    else ""
  }

  /**
   * A non-blank value must, once every whitespace character is deleted, match the
   * telephone pattern.
   */
  function ValidateTelefono(value: string): (msg: string)
    ensures msg == "" <==> PhonePattern.Matches(StripSpaces(value))
    ensures AllSpace(value) ==> msg == TelefonoRequired
    ensures !AllSpace(value) && !PhonePattern.Matches(StripSpaces(value)) ==> msg == TelefonoInvalid
  {
    StripEmptyIffBlank(value);
    PhonePattern.ParseDecides(StripSpaces(value));
    if Trim(value) == "" then TelefonoRequired
    else if PhonePattern.Parse(StripSpaces(value)).None? then TelefonoInvalid
    else ""
  }

  /** Only the empty string is rejected: there is no trim, so whitespace passes. */
  function ValidatePersonas(value: string): (msg: string)
    ensures msg == "" <==> value != []
    ensures msg != "" ==> msg == PersonasRequired
  {
    if value == "" then PersonasRequired else ""
  }

  /** The date must be given and must not lie before today; today itself is accepted. */
  function ValidateFecha(value: string, cal: Calendar): (msg: string)
    ensures msg == "" <==> value != [] && cal.today <= cal.picked
    ensures value == [] ==> msg == FechaRequired
    ensures value != [] && cal.picked < cal.today ==> msg == FechaPast
  {
    if value == "" then FechaRequired
    else if cal.picked < cal.today then FechaPast
    else ""
  }

  /** Only the empty string is rejected. */
  function ValidateHora(value: string): (msg: string)
    ensures msg == "" <==> value != []
    ensures msg != "" ==> msg == HoraRequired
  {
    if value == "" then HoraRequired else ""
  }

  /** The table entry for a field, applied to a value: `''` exactly when that field's rule accepts it. */
  function Check(f: Field, value: string, cal: Calendar): (msg: string)
    ensures msg == "" <==> Acceptable(Key(f), value, cal)
  {
    match f
    case Nombre => ValidateNombre(value)
    case Email => ValidateEmail(value)
    case Telefono => ValidateTelefono(value)
    case Personas => ValidatePersonas(value)
    case Fecha => ValidateFecha(value, cal)
    case Hora => ValidateHora(value)
  }

  /** The message for a field name: its validator's, or the empty string for a name the table lacks. */
  function Message(name: string, value: string, cal: Calendar): (msg: string)
    ensures name !in FieldOrder ==> msg == ""
  {
    match FieldNamed(name)
    case None => ""
    case Some(f) => Check(f, value, cal)
  }

  /** What `msg == ""` means for each field name: acceptance of the value by that field's rule. */
  ghost predicate Acceptable(name: string, value: string, cal: Calendar)
  {
    if name == "nombre" then Utf16Length(Trim(value)) >= 3
    else if name == "email" then EmailPattern.Shape(value)
    else if name == "telefono" then PhonePattern.Matches(StripSpaces(value))
    else if name == "personas" || name == "hora" then value != []
    else if name == "fecha" then value != [] && cal.today <= cal.picked
    else true
  }

  /** A message is empty exactly when the value is acceptable; otherwise it is one of the field's own messages. */
  lemma MessageMeaning(name: string, value: string, cal: Calendar)
    ensures Message(name, value, cal) == "" <==> Acceptable(name, value, cal)
    ensures name == "nombre" ==> Message(name, value, cal) in {"", NombreRequired, NombreTooShort}
    ensures name == "email" ==> Message(name, value, cal) in {"", EmailRequired, EmailInvalid}
    ensures name == "telefono" ==> Message(name, value, cal) in {"", TelefonoRequired, TelefonoInvalid}
    ensures name == "personas" ==> Message(name, value, cal) in {"", PersonasRequired}
    ensures name == "fecha" ==> Message(name, value, cal) in {"", FechaRequired, FechaPast}
    ensures name == "hora" ==> Message(name, value, cal) in {"", HoraRequired}
    ensures name !in FieldOrder ==> Message(name, value, cal) == ""
  {
  }

  /** Length is counted in UTF-16 code units: a two-character name with a character above U+FFFF passes, one without does not. */
  lemma NombreCountsCodeUnits()
    ensures ValidateNombre("\U{20BB7}\U{7530}") == ""
    ensures ValidateNombre("\U{7530}\U{4E2D}") == NombreTooShort
  {
    var s1, s2 := "\U{20BB7}\U{7530}", "\U{7530}\U{4E2D}";
    assert !IsSpace(s1[0]) && !IsSpace(s1[1]);
    assert !IsSpace(s2[0]) && !IsSpace(s2[1]);
    assert SkipSpace(s1, 0) == 0 && SkipSpaceBack(s1, 2) == 2;
    assert SkipSpace(s2, 0) == 0 && SkipSpaceBack(s2, 2) == 2;
    assert Trim(s1) == s1 && Trim(s2) == s2;
    assert Utf16Length(s1[1..]) == 1;
    assert Utf16Length(s2[1..]) == 1;
  }

  /** A well-formed sample address is accepted. */
  lemma EmailAcceptsSample()
    ensures ValidateEmail("user@example.com") == ""
  {
    var a := EmailPattern.Address("user", "example", "com");
    assert EmailPattern.AllAddressChars("user");
    assert EmailPattern.AllAddressChars("example");
    assert EmailPattern.AllAddressChars("com");
    assert EmailPattern.Render(a) == "user@example.com";
    assert EmailPattern.WellFormed(a);
    EmailPattern.MatchesIffShape("user@example.com");
    assert EmailPattern.Shape("user@example.com");
  }

  /** An address with nothing after the `@`, and one without an `@`, are rejected as malformed. */
  lemma EmailRejectsSamples()
    ensures ValidateEmail("user@") == EmailInvalid
    ensures ValidateEmail("userexample.com") == EmailInvalid
  {
    var s1, s2 := "user@", "userexample.com";
    assert !AllSpace(s1) by { assert !IsSpace(s1[0]); }
    assert !AllSpace(s2) by { assert !IsSpace(s2[0]); }
    assert !EmailPattern.Shape(s1) by {
      forall k | 0 <= k < |s1| && s1[k] == '@' ensures k == |s1| - 1 { }
    }
    assert !EmailPattern.Shape(s2) by {
      forall k | 0 <= k < |s2| ensures s2[k] != '@' { }
    }
  }

  /** The empty address gets the "required" message. */
  lemma EmailRejectsEmpty()
    ensures ValidateEmail("") == EmailRequired
  {
  }

  /** Spaces inside a telephone number are ignored; a bare digit run must have 9 to 12 digits. */
  lemma TelefonoDigits(value: string)
    requires AllDigits(StripSpaces(value))
    ensures ValidateTelefono(value) == "" <==> 9 <= |StripSpaces(value)| <= 12
  {
    PhonePattern.ParseDecides(StripSpaces(value));
    PhonePattern.DigitsMatchIffLength(StripSpaces(value));
  }
}
