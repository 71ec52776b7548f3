/**
 * Character classes and the two string operations the validators rely on:
 * `String.prototype.trim` and deleting every `\s` match (`replace(/\s/g, '')`).
 * Both use the same whitespace set: ECMAScript's WhiteSpace and
 * LineTerminator code points.
 */
module Text {

  /** ECMAScript WhiteSpace (TAB, VT, FF, ZWNBSP, every Zs space) and LineTerminator (LF, CR, LS, PS). */
  predicate IsSpace(c: char)
  {
    || c == '\t' || c == '\U{000B}' || c == '\U{000C}' || c == ' ' || c == '\U{00A0}'
    || c == '\U{FEFF}' || c == '\U{1680}' || ('\U{2000}' <= c <= '\U{200A}')
    || c == '\U{202F}' || c == '\U{205F}' || c == '\U{3000}'
    || c == '\n' || c == '\r' || c == '\U{2028}' || c == '\U{2029}'
  }

  /** The regular-expression class `[0-9]`. */
  predicate IsDigit(c: char)
  {
    '0' <= c <= '9'
  }

  predicate AllDigits(s: string)
  {
    forall i :: 0 <= i < |s| ==> IsDigit(s[i])
  }

  predicate NoSpace(s: string)
  {
    forall i :: 0 <= i < |s| ==> !IsSpace(s[i])
  }

  predicate AllSpace(s: string)
  {
    forall i :: 0 <= i < |s| ==> IsSpace(s[i])
  }

  /** The first index at or after `from` whose character is not whitespace, or `|s|`. */
  function SkipSpace(s: string, from: nat): (k: nat)
    requires from <= |s|
    ensures from <= k <= |s|
    ensures forall i :: from <= i < k ==> IsSpace(s[i])
    ensures k < |s| ==> !IsSpace(s[k])
    decreases |s| - from
  {
    if from == |s| || !IsSpace(s[from]) then from else SkipSpace(s, from + 1)
  }

  /** The least `k <= upto` such that `s[k..upto]` is all whitespace. */
  function SkipSpaceBack(s: string, upto: nat): (k: nat)
    requires upto <= |s|
    ensures k <= upto
    ensures forall i :: k <= i < upto ==> IsSpace(s[i])
    ensures k > 0 ==> !IsSpace(s[k - 1])
    decreases upto
  {
    if upto == 0 || !IsSpace(s[upto - 1]) then upto else SkipSpaceBack(s, upto - 1)
  }

  /** Leading whitespace removed. */
  function TrimStart(s: string): string
  {
    s[SkipSpace(s, 0)..]
  }

  /** Trailing whitespace removed. */
  function TrimEnd(s: string): string
  {
    s[..SkipSpaceBack(s, |s|)]
  }

  /** `value.trim()`: leading and trailing whitespace removed. */
  function Trim(s: string): (r: string)
    ensures r == [] <==> AllSpace(s)
  {
    var t := TrimStart(s);
    assert t != [] ==> !IsSpace(t[0]);
    TrimEnd(t)
  }

  /**
   * Trim keeps exactly the middle of the string between a run of leading and a run of
   * trailing whitespace, and the characters it keeps neither start nor end with whitespace.
   */
  lemma TrimIsInfix(s: string)
    ensures exists a, b :: 0 <= a <= b <= |s| && Trim(s) == s[a..b]
                           && AllSpace(s[..a]) && AllSpace(s[b..])
    ensures Trim(s) == [] || (!IsSpace(Trim(s)[0]) && !IsSpace(Trim(s)[|Trim(s)| - 1]))
  {
    var a := SkipSpace(s, 0);
    var t := s[a..];
    var c := SkipSpaceBack(t, |t|);
    assert Trim(s) == s[a..a + c];
    assert AllSpace(s[..a]);
    assert s[a + c..] == t[c..];
  }

  /** `value.replace(/\s/g, '')`: every whitespace character deleted, the rest kept in order. */
  function StripSpaces(s: string): (r: string)
    ensures NoSpace(r)
    ensures |r| <= |s|
    ensures NoSpace(s) ==> r == s
  {
    if s == [] then []
    else
      var r := StripSpaces(s[1..]);
      assert NoSpace(s) ==> NoSpace(s[1..]);
      if IsSpace(s[0]) then r else [s[0]] + r
  }

  /** Deleting whitespace keeps every other character, as often as it occurs. */
  lemma {:induction false} StripKeepsOthers(s: string)
    ensures forall c :: !IsSpace(c) ==> multiset(StripSpaces(s))[c] == multiset(s)[c]
  {
    if s != [] {
      StripKeepsOthers(s[1..]);
      assert s == [s[0]] + s[1..];
      assert multiset(s) == multiset{s[0]} + multiset(s[1..]);
      if !IsSpace(s[0]) {
        assert StripSpaces(s) == [s[0]] + StripSpaces(s[1..]);
        assert multiset(StripSpaces(s)) == multiset{s[0]} + multiset(StripSpaces(s[1..]));
      }
    }
  }

  /** A single character is deleted exactly when it is whitespace. */
  lemma StripOne(c: char)
    ensures StripSpaces([c]) == if IsSpace(c) then [] else [c]
  {
    assert [c][1..] == [];
  }

  /** Deleting whitespace works piecewise, so the characters kept stay in their order. */
  lemma {:induction false} StripConcat(a: string, b: string)
    ensures StripSpaces(a + b) == StripSpaces(a) + StripSpaces(b)
    decreases |a|
  {
    if a == [] {
      assert a + b == b;
    } else {
      assert (a + b)[0] == a[0];
      assert (a + b)[1..] == a[1..] + b;
      StripConcat(a[1..], b);
    }
  }

  /** Deleting whitespace empties exactly the strings made only of whitespace. */
  lemma {:induction false} StripEmptyIffBlank(s: string)
    ensures StripSpaces(s) == [] <==> AllSpace(s)
  {
    if s != [] {
      StripEmptyIffBlank(s[1..]);
      if AllSpace(s) {
        assert AllSpace(s[1..]);
      } else if IsSpace(s[0]) {
        assert !AllSpace(s[1..]) by {
          var i :| 0 <= i < |s| && !IsSpace(s[i]);
          assert s[1..][i - 1] == s[i];
        }
      }
    }
  }

  /**
   * `String.prototype.length`: the number of UTF-16 code units, one for a character of the
   * Basic Multilingual Plane and two (a surrogate pair) for a character above U+FFFF.
   */
  function Utf16Length(s: string): (n: nat)
    ensures |s| <= n <= 2 * |s|
    ensures n == |s| <==> forall i :: 0 <= i < |s| ==> s[i] as int <= 0xFFFF
  {
    if s == [] then 0
    else
      var n := Utf16Length(s[1..]);
      assert forall i :: 1 <= i < |s| ==> s[i] == s[1..][i - 1];
      n + (if s[0] as int > 0xFFFF then 2 else 1)
  }

  /** One character takes two code units when it lies above U+FFFF and one otherwise. */
  lemma Utf16One(c: char)
    ensures Utf16Length([c]) == if c as int > 0xFFFF then 2 else 1
  {
    assert [c][1..] == [];
  }

  /** Code units add up over concatenation, so the count is the sum of the per-character counts. */
  lemma {:induction false} Utf16Concat(a: string, b: string)
    ensures Utf16Length(a + b) == Utf16Length(a) + Utf16Length(b)
    decreases |a|
  {
    if a == [] {
      assert a + b == b;
    } else {
      assert (a + b)[0] == a[0];
      assert (a + b)[1..] == a[1..] + b;
      Utf16Concat(a[1..], b);
    }
  }

  /** The index of the first occurrence of `c` in `s` at or after `from`, or `|s|` if there is none. */
  function IndexOf(s: string, c: char, from: nat): (k: nat)
    ensures from <= |s| ==> from <= k <= |s|
    ensures from > |s| ==> k == |s|
    ensures k < |s| ==> s[k] == c
    ensures forall i :: from <= i < k ==> s[i] != c
    decreases |s| - from
  {
    if from >= |s| then |s|
    else if s[from] == c then from
    else IndexOf(s, c, from + 1)
  }
}
