/**
 * The telephone shape `/^[+]?[(]?[0-9]{3}[)]?[-\s.]?[0-9]{3}[-\s.]?[0-9]{3,6}$/`.
 *
 * A string of the pattern's language is `Render(p)` for well-formed parts `p`.
 * Every optional piece is a character that cannot start the piece after it, so a
 * greedy left-to-right `Parse` needs no backtracking: its contract gives soundness,
 * and `ParseRender` shows it recovers the very parts any well-formed string was
 * rendered from.
 */
module PhonePattern {
  import opened Wrappers
  import opened Text

  /** The pieces of a telephone number, in order. */
  datatype Phone = Phone(
    plus: bool,              // `[+]?`
    open: bool,              // `[(]?`
    area: string,            // `[0-9]{3}`
    close: bool,             // `[)]?`
    sep1: Option<char>,      // `[-\s.]?`
    exchange: string,        // `[0-9]{3}`
    sep2: Option<char>,      // `[-\s.]?`
    line: string             // `[0-9]{3,6}`
  )

  /** The character class `[-\s.]`. */
  predicate IsSeparator(c: char)
  {
    c == '-' || IsSpace(c) || c == '.'
  }

  predicate SeparatorOk(sep: Option<char>)
  {
    sep.Some? ==> IsSeparator(sep.value)
  }

  predicate WellFormed(p: Phone)
  {
    && |p.area| == 3 && AllDigits(p.area)
    && SeparatorOk(p.sep1)
    && |p.exchange| == 3 && AllDigits(p.exchange)
    && SeparatorOk(p.sep2)
    && 3 <= |p.line| <= 6 && AllDigits(p.line)
  }

  function Flag(present: bool, c: char): string
  {
    if present then [c] else []
  }

  function Sep(sep: Option<char>): string
  {
    if sep.Some? then [sep.value] else []
  }

  function Render(p: Phone): string
  {
    Flag(p.plus, '+') + (Flag(p.open, '(') + (p.area + (Flag(p.close, ')') + (Sep(p.sep1)
      + (p.exchange + (Sep(p.sep2) + p.line))))))
  }

  /** `s` is in the language of the pattern. */
  ghost predicate Matches(s: string)
  {
    exists p :: WellFormed(p) && Render(p) == s
  }

  /** An optional single character `c` at the front of `s`: whether it is there, and the rest. */
  function TakeChar(s: string, c: char): (r: (bool, string))
    ensures Flag(r.0, c) + r.1 == s
  {
    if |s| > 0 && s[0] == c then (true, s[1..]) else (false, s)
  }

  /** An optional separator at the front of `s`, and the rest. */
  function TakeSep(s: string): (r: (Option<char>, string))
    ensures SeparatorOk(r.0) && Sep(r.0) + r.1 == s
  {
    if |s| > 0 && IsSeparator(s[0]) then (Some(s[0]), s[1..]) else (None, s)
  }

  /** Exactly three digits at the front of `s`, and the rest. */
  function TakeThreeDigits(s: string): (r: Option<(string, string)>)
    ensures r.Some? ==> |r.value.0| == 3 && AllDigits(r.value.0) && r.value.0 + r.value.1 == s
  {
    if |s| >= 3 && AllDigits(s[..3]) then Some((s[..3], s[3..])) else None
  }

  /** The greedy matcher. */
  function Parse(s: string): (r: Option<Phone>)
    ensures r.Some? ==> WellFormed(r.value) && Render(r.value) == s
  {
    var (plus, s1) := TakeChar(s, '+');
    var (open, s2) := TakeChar(s1, '(');
    match TakeThreeDigits(s2)
    case None => None
    case Some((area, s3)) =>
      var (close, s4) := TakeChar(s3, ')');
      var (sep1, s5) := TakeSep(s4);
      match TakeThreeDigits(s5)
      case None => None
      case Some((exchange, s6)) =>
        var (sep2, line) := TakeSep(s6);
        if 3 <= |line| <= 6 && AllDigits(line) then
          var p := Phone(plus, open, area, close, sep1, exchange, sep2, line);
          Some(p)
        else None
  }

  /** None of the punctuation the pattern allows is a digit. */
  lemma DigitIsNotPunctuation(c: char)
    ensures IsDigit(c) ==> c != '+' && c != '(' && c != ')' && !IsSeparator(c)
  {
  }

  lemma TakeCharFlag(present: bool, c: char, rest: string)
    requires rest == [] || rest[0] != c
    ensures TakeChar(Flag(present, c) + rest, c) == (present, rest)
  {
    if present {
      assert (Flag(present, c) + rest)[1..] == rest;
    } else {
      assert Flag(present, c) + rest == rest;
    }
  }

  lemma TakeSepSep(sep: Option<char>, rest: string)
    requires SeparatorOk(sep) && (rest == [] || !IsSeparator(rest[0]))
    ensures TakeSep(Sep(sep) + rest) == (sep, rest)
  {
    if sep.Some? {
      assert (Sep(sep) + rest)[1..] == rest;
    } else {
      assert Sep(sep) + rest == rest;
    }
  }

  /** What follows the area code in a rendering: separator, exchange, separator, line. */
  function Tail(p: Phone): string
  {
    Sep(p.sep1) + (p.exchange + (Sep(p.sep2) + p.line))
  }

  /** The matcher reads the separators, the exchange and the line back off the tail. */
  lemma TailParts(p: Phone)
    requires WellFormed(p)
    ensures TakeSep(Tail(p)) == (p.sep1, p.exchange + (Sep(p.sep2) + p.line))
    ensures TakeThreeDigits(p.exchange + (Sep(p.sep2) + p.line)) == Some((p.exchange, Sep(p.sep2) + p.line))
    ensures TakeSep(Sep(p.sep2) + p.line) == (p.sep2, p.line)
    ensures Tail(p) != [] && Tail(p)[0] != ')'
  {
    var t6 := Sep(p.sep2) + p.line;
    var t5 := p.exchange + t6;
    DigitIsNotPunctuation(p.line[0]);
    DigitIsNotPunctuation(p.exchange[0]);
    TakeSepSep(p.sep2, p.line);
    assert t5[..3] == p.exchange && t5[3..] == t6;
    TakeSepSep(p.sep1, t5);
    assert Tail(p)[0] == if p.sep1.Some? then p.sep1.value else p.exchange[0];
  }

  /** The matcher reads the `+`, the `(`, the area code and the `)` back off a rendering. */
  lemma HeadParts(p: Phone)
    requires WellFormed(p)
    ensures TakeChar(Render(p), '+') == (p.plus, Flag(p.open, '(') + (p.area + (Flag(p.close, ')') + Tail(p))))
    ensures TakeChar(Flag(p.open, '(') + (p.area + (Flag(p.close, ')') + Tail(p))), '(')
         == (p.open, p.area + (Flag(p.close, ')') + Tail(p)))
    ensures TakeThreeDigits(p.area + (Flag(p.close, ')') + Tail(p))) == Some((p.area, Flag(p.close, ')') + Tail(p)))
    ensures TakeChar(Flag(p.close, ')') + Tail(p), ')') == (p.close, Tail(p))
  {
    var t3 := Flag(p.close, ')') + Tail(p);
    var t2 := p.area + t3;
    var t1 := Flag(p.open, '(') + t2;
    TailParts(p);
    DigitIsNotPunctuation(p.area[0]);
    TakeCharFlag(p.close, ')', Tail(p));
    assert t2[..3] == p.area && t2[3..] == t3;
    TakeCharFlag(p.open, '(', t2);
    assert t1[0] == if p.open then '(' else p.area[0];
    TakeCharFlag(p.plus, '+', t1);
  }

  /** A string of the pattern's language is parsed back into the parts it was rendered from. */
  lemma ParseRender(p: Phone)
    requires WellFormed(p)
    ensures Parse(Render(p)) == Some(p)
  {
    HeadParts(p);
    TailParts(p);
  }

  /** The matcher decides the pattern's language. */
  lemma ParseDecides(s: string)
    ensures Parse(s).Some? <==> Matches(s)
  {
    if Matches(s) {
      var p :| WellFormed(p) && Render(p) == s;
      ParseRender(p);
    }
  }

  /** A string of digits alone matches exactly when it has 9 to 12 of them. */
  lemma DigitsMatchIffLength(s: string)
    requires AllDigits(s)
    ensures Parse(s).Some? <==> 9 <= |s| <= 12
  {
    if 9 <= |s| <= 12 {
      var p := Phone(false, false, s[..3], false, None, s[3..6], None, s[6..]);
      assert Render(p) == s;
      ParseRender(p);
    } else if Parse(s).Some? {
      RenderedDigitsLength(Parse(s).value);
    }
  }

  /** A well-formed rendering made only of digits uses none of the optional punctuation. */
  lemma RenderedDigitsLength(p: Phone)
    requires WellFormed(p) && AllDigits(Render(p))
    ensures !p.plus && !p.open && !p.close && p.sep1.None? && p.sep2.None?
    ensures 9 <= |Render(p)| <= 12
  {
    var t6 := Sep(p.sep2) + p.line;
    var t5 := p.exchange + t6;
    var t4 := Sep(p.sep1) + t5;
    var t3 := Flag(p.close, ')') + t4;
    var t2 := p.area + t3;
    var t1 := Flag(p.open, '(') + t2;
    DigitsSplit(Flag(p.plus, '+'), t1);
    DigitsSplit(Flag(p.open, '('), t2);
    DigitsSplit(p.area, t3);
    DigitsSplit(Flag(p.close, ')'), t4);
    DigitsSplit(Sep(p.sep1), t5);
    DigitsSplit(p.exchange, t6);
    DigitsSplit(Sep(p.sep2), p.line);
    FlagDigits(p.plus, '+');
    FlagDigits(p.open, '(');
    FlagDigits(p.close, ')');
    SepDigits(p.sep1);
    SepDigits(p.sep2);
  }

  lemma FlagDigits(present: bool, c: char)
    ensures AllDigits(Flag(present, c)) ==> !present || IsDigit(c)
  {
    if present {
      assert Flag(present, c)[0] == c;
    }
  }

  lemma SepDigits(sep: Option<char>)
    ensures AllDigits(Sep(sep)) && SeparatorOk(sep) ==> sep.None?
  {
    if sep.Some? {
      assert Sep(sep)[0] == sep.value;
      DigitIsNotPunctuation(sep.value);
    }
  }

  /** Both halves of a digit string are digit strings. */
  lemma DigitsSplit(a: string, b: string)
    requires AllDigits(a + b)
    ensures AllDigits(a) && AllDigits(b)
  {
    assert forall i :: 0 <= i < |b| ==> (a + b)[|a| + i] == b[i];
    assert forall i :: 0 <= i < |a| ==> (a + b)[i] == a[i];
  }
}
