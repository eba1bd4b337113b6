/** String primitives the catalog search relies on: the ECMAScript `trim`,
    an ASCII `toLowerCase`, `includes` (substring containment) and the
    decimal rendering of a non-negative count used in the pagination label. */
module Text {

  /** The characters `String.prototype.trim` removes: ECMAScript WhiteSpace
      (tab, vertical tab, form feed, the byte-order mark and every space
      separator) and LineTerminator (LF, CR, line and paragraph separators). */
  predicate IsWhitespace(c: char) {
    || c == '\t' || c == '\U{000B}' || c == '\U{000C}' || c == ' '
    || c == '\U{00A0}' || c == '\U{1680}' || ('\U{2000}' <= c <= '\U{200A}')
    || c == '\U{202F}' || c == '\U{205F}' || c == '\U{3000}' || c == '\U{FEFF}'
    || c == '\n' || c == '\r' || c == '\U{2028}' || c == '\U{2029}'
  }

  /** A string made of whitespace only (the empty string included). */
  ghost predicate Blank(s: string) {
    forall i :: 0 <= i < |s| ==> IsWhitespace(s[i])
  }

  /** Drops leading whitespace: the result is a suffix of `s` that does not
      start with whitespace, and everything dropped was whitespace. */
  function TrimStart(s: string): (r: string)
    ensures |r| <= |s| && r == s[|s| - |r|..]
    ensures |r| > 0 ==> !IsWhitespace(r[0])
    ensures Blank(s[..|s| - |r|])
  {
    if |s| > 0 && IsWhitespace(s[0]) then TrimStart(s[1..]) else s
  }

  /** Drops trailing whitespace: the result is a prefix of `s` that does not
      end with whitespace, and everything dropped was whitespace. */
  function TrimEnd(s: string): (r: string)
    ensures |r| <= |s| && r == s[..|r|]
    ensures |r| > 0 ==> !IsWhitespace(r[|r| - 1])
    ensures Blank(s[|r|..])
  {
    if |s| > 0 && IsWhitespace(s[|s| - 1]) then TrimEnd(s[..|s| - 1]) else s
  }

  /** `String.prototype.trim`: a contiguous piece of `s`, neither starting
      nor ending with whitespace, with only whitespace cut on either side. */
  function Trim(s: string): (r: string)
    ensures |r| <= |s|
    ensures |r| > 0 ==> !IsWhitespace(r[0]) && !IsWhitespace(r[|r| - 1])
    ensures r == [] <==> Blank(s)
    ensures exists i, j :: 0 <= i <= j <= |s| && r == s[i..j] && Blank(s[..i]) && Blank(s[j..])
  {
    var t := TrimStart(s);
    TrimIsPiece(s, t, TrimEnd(t));
    TrimBlank(s, t, TrimEnd(t));
    TrimEnd(t)
  }

  /** A suffix `t` of `s` after a blank cut, and a prefix `r` of `t` before
      a blank cut, is a piece of `s` with only whitespace cut on either
      side. */
  lemma TrimIsPiece(s: string, t: string, r: string)
    requires |t| <= |s| && t == s[|s| - |t|..] && Blank(s[..|s| - |t|])
    requires |r| <= |t| && r == t[..|r|] && Blank(t[|r|..])
    ensures 0 <= |s| - |t| <= |s| - |t| + |r| <= |s|
    ensures r == s[|s| - |t|..|s| - |t| + |r|]
    ensures Blank(s[..|s| - |t|]) && Blank(s[|s| - |t| + |r|..])
  {
    var j := |s| - |t| + |r|;
    assert s[j..] == t[|r|..];
  }

  /** With the same cuts, the piece is empty exactly when `s` is blank,
      provided the piece does not start with whitespace. */
  lemma TrimBlank(s: string, t: string, r: string)
    requires |t| <= |s| && t == s[|s| - |t|..] && Blank(s[..|s| - |t|])
    requires |r| <= |t| && r == t[..|r|] && Blank(t[|r|..])
    requires |r| > 0 ==> !IsWhitespace(r[0])
    ensures r == [] <==> Blank(s)
  {
    var i := |s| - |t|;
    if r == [] {
      forall k | 0 <= k < |s| ensures IsWhitespace(s[k]) {
        if k < i {
          assert s[k] == s[..i][k];
        } else {
          assert s[k] == t[|r|..][k - i];
        }
      }
    } else {
      assert s[i] == r[0];
    }
  }

  /** ASCII case folding of one character: `A`..`Z` become `a`..`z`; every
      other character is left as it is. */
  function LowerChar(c: char): (r: char)
    ensures !('A' <= r <= 'Z')
    ensures IsWhitespace(r) <==> IsWhitespace(c)
    ensures 'a' <= c <= 'z' ==> r == c
  {
    if 'A' <= c <= 'Z' then (c as int - 'A' as int + 'a' as int) as char else c
  }

  /** `String.prototype.toLowerCase` restricted to ASCII letters. */
  function ToLower(s: string): (r: string)
    ensures |r| == |s|
    ensures forall i :: 0 <= i < |s| ==> r[i] == LowerChar(s[i])
  {
    if s == [] then [] else [LowerChar(s[0])] + ToLower(s[1..])
  }

  /** Lowering twice is lowering once. */
  lemma {:induction false} ToLowerIdempotent(s: string)
    ensures ToLower(ToLower(s)) == ToLower(s)
  {
    var l := ToLower(s);
    var ll := ToLower(l);
    assert forall i :: 0 <= i < |s| ==> ll[i] == l[i] by {
      forall i | 0 <= i < |s| ensures ll[i] == l[i] {
        assert !('A' <= l[i] <= 'Z');
      }
    }
  }

  /** Lowering never turns a blank string into a non-blank one or back. */
  lemma ToLowerKeepsBlank(s: string)
    ensures Blank(ToLower(s)) <==> Blank(s)
  {
    var l := ToLower(s);
    if Blank(s) {
      forall i | 0 <= i < |l| ensures IsWhitespace(l[i]) {
        assert IsWhitespace(s[i]);
      }
    }
    if Blank(l) {
      forall i | 0 <= i < |s| ensures IsWhitespace(s[i]) {
        assert IsWhitespace(l[i]);
      }
    }
  }

  /** `needle` occurs in `hay` starting at index `i`. */
  predicate OccursAt(hay: string, needle: string, i: nat) {
    i + |needle| <= |hay| && hay[i..i + |needle|] == needle
  }

  /** `needle` occurs somewhere in `hay`. */
  ghost predicate Occurs(hay: string, needle: string) {
    exists i: nat :: OccursAt(hay, needle, i)
  }

  /** A blank string has only blank prefixes. */
  lemma BlankPrefix(a: string, b: string)
    ensures Blank(a + b) ==> Blank(a)
  {
    if Blank(a + b) {
      forall k | 0 <= k < |a| ensures IsWhitespace(a[k]) {
        assert (a + b)[k] == a[k];
      }
    }
  }

  /** Wherever a string occurs, so does each of its prefixes. */
  lemma OccursPrefix(hay: string, a: string, b: string)
    ensures Occurs(hay, a + b) ==> Occurs(hay, a)
  {
    if Occurs(hay, a + b) {
      var i: nat :| OccursAt(hay, a + b, i);
      assert hay[i..i + |a|] == (a + b)[..|a|];
      assert OccursAt(hay, a, i);
    }
  }

  /** `String.prototype.includes`: the empty needle is found everywhere;
      otherwise the needle must start at some position of `hay`. */
  function Contains(hay: string, needle: string): (r: bool)
    ensures needle == [] ==> r
    ensures r ==> |needle| <= |hay|
    decreases |hay|
  {
    if |needle| <= |hay| && hay[..|needle|] == needle then true
    else if hay == [] then false
    else Contains(hay[1..], needle)
  }

  /** `Contains` holds exactly when the needle occurs at some index. */
  lemma {:induction false} ContainsIffOccurs(hay: string, needle: string)
    ensures Contains(hay, needle) <==> Occurs(hay, needle)
    decreases |hay|
  {
    if |needle| <= |hay| && hay[..|needle|] == needle {
      assert OccursAt(hay, needle, 0);
    } else if hay == [] {
    } else {
      ContainsIffOccurs(hay[1..], needle);
      if Occurs(hay[1..], needle) {
        var i: nat :| OccursAt(hay[1..], needle, i);
        OccursShift(hay, needle, i);
      }
      if Occurs(hay, needle) {
        var i: nat :| OccursAt(hay, needle, i);
        assert i != 0 by { assert hay[..|needle|] == hay[0..0 + |needle|]; }
        OccursShift(hay, needle, i - 1);
      }
    }
  }

  /** Dropping the first character shifts every occurrence one place left. */
  lemma OccursShift(hay: string, needle: string, i: nat)
    requires hay != []
    ensures OccursAt(hay[1..], needle, i) <==> OccursAt(hay, needle, i + 1)
  {
    if i + |needle| <= |hay[1..]| {
      var a, b := hay[i + 1..i + 1 + |needle|], hay[1..][i..i + |needle|];
      forall k | 0 <= k < |needle| ensures a[k] == b[k] {
        assert a[k] == hay[i + 1 + k];
      }
      assert a == b;
    }
  }

  /** The decimal digit for a value below ten. */
  function Digit(d: nat): (c: char)
    requires d < 10
    ensures '0' <= c <= '9'
    ensures c as int - '0' as int == d
  {
    (d + '0' as int) as char
  }

  /** The template-literal rendering `${n}` of a non-negative integer:
      decimal digits with no leading zero. */
  function NatToString(n: nat): (r: string)
    ensures |r| >= 1
    ensures forall i :: 0 <= i < |r| ==> '0' <= r[i] <= '9'
    ensures r[0] == '0' ==> n == 0 && r == "0"
  {
    if n < 10 then [Digit(n)] else NatToString(n / 10) + [Digit(n % 10)]
  }

  /** Reads a string of decimal digits back as a number. */
  function ParseNat(s: string): nat
    requires forall i :: 0 <= i < |s| ==> '0' <= s[i] <= '9'
  {
    if s == [] then 0
    else ParseNat(s[..|s| - 1]) * 10 + (s[|s| - 1] as int - '0' as int)
  }

  /** Rendering a count and reading it back gives the count. */
  lemma {:induction false} ParseNatToString(n: nat)
    ensures ParseNat(NatToString(n)) == n
  {
    if n >= 10 {
      var s := NatToString(n);
      assert s[..|s| - 1] == NatToString(n / 10);
      ParseNatToString(n / 10);
    }
  }
}
