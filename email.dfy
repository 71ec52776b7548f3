/**
 * The e-mail shape `/^[^\s@]+@[^\s@]+\.[^\s@]+$/`.
 *
 * The language of the pattern is the set of strings `Render(p)` for well-formed
 * parts `p`: a local part, `@`, a domain, `.`, a final domain label, each piece non-empty
 * and free of whitespace and `@`. `Parse` is a deterministic matcher; its contract
 * gives soundness and `ParseComplete` gives completeness, so `Matches` (an existential
 * over parts) is decided exactly by `Parse`.
 */
module EmailPattern {
  import opened Wrappers
  import opened Text

  /** The three `[^\s@]+` pieces of an address, around the `@` and the chosen `.`. */
  datatype Address = Address(local: string, domain: string, tld: string)

  /** The character class `[^\s@]`. */
  predicate IsAddressChar(c: char)
  {
    !IsSpace(c) && c != '@'
  }

  predicate AllAddressChars(s: string)
  {
    forall i :: 0 <= i < |s| ==> IsAddressChar(s[i])
  }

  /** The pieces match `[^\s@]+` each. */
  predicate WellFormed(a: Address)
  {
    && |a.local| > 0 && AllAddressChars(a.local)
    && |a.domain| > 0 && AllAddressChars(a.domain)
    && |a.tld| > 0 && AllAddressChars(a.tld)
  }

  function Render(a: Address): string
  {
    a.local + "@" + a.domain + "." + a.tld
  }

  /** `s` is in the language of the pattern. */
  ghost predicate Matches(s: string)
  {
    exists a :: WellFormed(a) && Render(a) == s
  }

  /** Cutting a string at an `@` and a later `.` and rendering the pieces gives it back. */
  lemma RenderSplit(s: string, k: nat, j: nat)
    requires k < j < |s| && s[k] == '@' && s[j] == '.'
    ensures Render(Address(s[..k], s[k + 1..j], s[j + 1..])) == s
  {
    assert s[k..] == "@" + s[k + 1..];
    assert s[k + 1..] == s[k + 1..j] + "." + s[j + 1..];
    assert s == s[..k] + s[k..];
  }

  /**
   * The matcher: the local part runs up to the first `@`; the domain runs from there
   * up to the first `.` that is not its first character, and the final label (`tld`) is what follows.
   */
  function Parse(s: string): (r: Option<Address>)
    ensures r.Some? ==> WellFormed(r.value) && Render(r.value) == s
  {
    var k := IndexOf(s, '@', 0);
    var j := IndexOf(s, '.', k + 2);
    if k == |s| || j + 1 >= |s| then None
    else
      var a := Address(s[..k], s[k + 1..j], s[j + 1..]);
      if WellFormed(a) then
        RenderSplit(s, k, j);
        Some(a)
      else None
  }

  /** Where the `@` and the `.` of a rendering are, and that every other character is in `[^\s@]`. */
  lemma RenderChars(a: Address)
    requires WellFormed(a)
    ensures Render(a)[|a.local|] == '@'
    ensures Render(a)[|a.local| + 1 + |a.domain|] == '.'
    ensures |Render(a)| == |a.local| + |a.domain| + |a.tld| + 2
    ensures forall i :: 0 <= i < |Render(a)| && i != |a.local| ==> IsAddressChar(Render(a)[i])
  {
    var s := Render(a);
    var k := |a.local|;
    var d := k + 1 + |a.domain|;
    forall i | 0 <= i < |s| && i != k ensures IsAddressChar(s[i]) {
      if i < k {
        assert s[i] == a.local[i];
      } else if i < d {
        assert s[i] == a.domain[i - k - 1];
      } else if i > d {
        assert s[i] == a.tld[i - d - 1];
      }
    }
  }

  /** Every string of the pattern's language is accepted by the matcher. */
  lemma ParseComplete(a: Address)
    requires WellFormed(a)
    ensures Parse(Render(a)).Some?
  {
    var s := Render(a);
    RenderChars(a);
    var k := |a.local|;
    assert IndexOf(s, '@', 0) == k;
    var j := IndexOf(s, '.', k + 2);
    assert k + 2 <= j <= k + 1 + |a.domain|;
    var b := Address(s[..k], s[k + 1..j], s[j + 1..]);
    assert AllAddressChars(b.local);
    assert AllAddressChars(b.domain);
    assert AllAddressChars(b.tld);
  }

  /** The matcher decides the pattern's language. */
  lemma ParseDecides(s: string)
    ensures Parse(s).Some? <==> Matches(s)
  {
    if Matches(s) {
      var a :| WellFormed(a) && Render(a) == s;
      ParseComplete(a);
    }
  }

  /**
   * The pattern read off the string itself: no whitespace, exactly one `@` with
   * something before it, and after it a `.` with something on both sides.
   */
  ghost predicate Shape(s: string)
  {
    && NoSpace(s)
    && exists k :: 0 < k < |s| && s[k] == '@' && (forall i :: 0 <= i < |s| && i != k ==> s[i] != '@')
                   && exists j :: k + 1 < j < |s| - 1 && s[j] == '.'
  }

  /** A rendered address has that shape. */
  lemma MatchesShape(a: Address)
    requires WellFormed(a)
    ensures Shape(Render(a))
  {
    RenderChars(a);
    var s := Render(a);
    var k := |a.local|;
    assert k + 1 < k + 1 + |a.domain| < |s| - 1;
  }

  /** A string of that shape is the rendering of well-formed parts. */
  lemma ShapeMatches(s: string)
    requires Shape(s)
    ensures Matches(s)
  {
    var k :| 0 < k < |s| && s[k] == '@' && (forall i :: 0 <= i < |s| && i != k ==> s[i] != '@')
             && exists j :: k + 1 < j < |s| - 1 && s[j] == '.';
    var j :| k + 1 < j < |s| - 1 && s[j] == '.';
    var a := Address(s[..k], s[k + 1..j], s[j + 1..]);
    RenderSplit(s, k, j);
    assert forall i :: 0 <= i < |s| && i != k ==> IsAddressChar(s[i]);
    assert AllAddressChars(a.local);
    assert AllAddressChars(a.domain);
    assert AllAddressChars(a.tld);
  }

  /** The pattern's language is exactly the strings of that shape. */
  lemma MatchesIffShape(s: string)
    ensures Matches(s) <==> Shape(s)
  {
    if Matches(s) {
      var a :| WellFormed(a) && Render(a) == s;
      MatchesShape(a);
    }
    if Shape(s) {
      ShapeMatches(s);
    }
  }
}
