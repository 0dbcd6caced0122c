/** Input normalisation applied to every line the server reads:
    surrounding whitespace is stripped and the rest is lower-cased.
    Only ASCII is modelled: a character outside ASCII is never whitespace
    and is left unchanged by lower-casing. */
module Normalization {

  /** ASCII whitespace as Python's str.isspace() sees it: the space,
      \t \n \v \f \r, and the separators \x1c to \x1f. */
  predicate IsSpace(c: char) {
    c == ' ' || (9 <= c as int <= 13) || (28 <= c as int <= 31)
  }

  ghost predicate AllSpace(s: string) {
    forall i :: 0 <= i < |s| ==> IsSpace(s[i])
  }

  predicate IsUpper(c: char) {
    'A' <= c <= 'Z'
  }

  /** Lower-cases one ASCII letter; every other character is kept. */
  function LowerChar(c: char): (d: char)
    ensures !IsUpper(d)
    ensures IsSpace(d) == IsSpace(c)
    ensures !IsUpper(c) ==> d == c
    ensures IsUpper(c) ==> 'a' <= d <= 'z' && d as int - 'a' as int == c as int - 'A' as int
  {
    if IsUpper(c) then (c as int + 32) as char else c
  }

  /** Python's str.lower(), over ASCII. */
  function Lower(s: string): (r: string)
    ensures |r| == |s|
  {
    if s == [] then [] else [LowerChar(s[0])] + Lower(s[1..])
  }

  /** Lower-casing works character by character and keeps the length. */
  lemma {:induction false} LowerAt(s: string)
    ensures |Lower(s)| == |s|
    ensures forall i :: 0 <= i < |s| ==> Lower(s)[i] == LowerChar(s[i])
  {
    if s != [] {
      LowerAt(s[1..]);
      assert forall i :: 1 <= i < |s| ==> Lower(s)[i] == Lower(s[1..])[i - 1];
    }
  }

  /** Drops the leading whitespace. */
  function TrimStart(s: string): (r: string)
    ensures |r| <= |s|
  {
    if s != [] && IsSpace(s[0]) then TrimStart(s[1..]) else s
  }

  /** Drops the trailing whitespace. */
  function TrimEnd(s: string): (r: string)
    ensures |r| <= |s|
  {
    if s != [] && IsSpace(s[|s| - 1]) then TrimEnd(s[..|s| - 1]) else s
  }

  /** TrimStart keeps the suffix of `s` that starts at its first non-space
      character. */
  lemma {:induction false} TrimStartShape(s: string)
    ensures |TrimStart(s)| <= |s| && TrimStart(s) == s[|s| - |TrimStart(s)|..]
    ensures AllSpace(s[..|s| - |TrimStart(s)|])
    ensures TrimStart(s) == [] || !IsSpace(TrimStart(s)[0])
  {
    if s != [] && IsSpace(s[0]) {
      TrimStartShape(s[1..]);
      var k := |s| - |TrimStart(s)|;
      assert forall x :: 1 <= x < k ==> s[..k][x] == s[1..][..k - 1][x - 1];
    }
  }

  /** TrimEnd keeps the prefix of `s` that ends at its last non-space
      character. */
  lemma {:induction false} TrimEndShape(s: string)
    ensures |TrimEnd(s)| <= |s| && TrimEnd(s) == s[..|TrimEnd(s)|]
    ensures AllSpace(s[|TrimEnd(s)|..])
    ensures TrimEnd(s) == [] || !IsSpace(TrimEnd(s)[|TrimEnd(s)| - 1])
  {
    if s != [] && IsSpace(s[|s| - 1]) {
      var t := s[..|s| - 1];
      TrimEndShape(t);
      var k := |TrimEnd(s)|;
      assert forall x :: 0 <= x < |s| - 1 - k ==> s[k..][x] == t[k..][x];
    }
  }

  /** Python's str.strip() with no argument, over ASCII. */
  function Strip(s: string): (r: string)
    ensures |r| <= |s|
    ensures r == [] || (!IsSpace(r[0]) && !IsSpace(r[|r| - 1]))
  {
    TrimStartShape(s);
    TrimEndShape(TrimStart(s));
    TrimEnd(TrimStart(s))
  }

  /** What receive_input does to a decoded read: strip(), then lower(). */
  function Normalize(s: string): (r: string)
    ensures |r| <= |s|
    ensures r == [] || (!IsSpace(r[0]) && !IsSpace(r[|r| - 1]))
    ensures forall i :: 0 <= i < |r| ==> !IsUpper(r[i])
  {
    LowerAt(Strip(s));
    Lower(Strip(s))
  }

  /** There is only one place where a run of leading whitespace can end. */
  lemma LeadingCutUnique(s: string, i: nat, k: nat)
    requires i <= |s| && k <= |s|
    requires AllSpace(s[..i]) && (i == |s| || !IsSpace(s[i]))
    requires AllSpace(s[..k]) && (k == |s| || !IsSpace(s[k]))
    ensures i == k
  {
    assert forall x :: 0 <= x < i ==> IsSpace(s[x]) by {
      forall x | 0 <= x < i ensures IsSpace(s[x]) { assert s[..i][x] == s[x]; }
    }
    assert forall x :: 0 <= x < k ==> IsSpace(s[x]) by {
      forall x | 0 <= x < k ensures IsSpace(s[x]) { assert s[..k][x] == s[x]; }
    }
  }

  /** There is only one place where a run of trailing whitespace can start. */
  lemma TrailingCutUnique(s: string, j: nat, k: nat)
    requires j <= |s| && k <= |s|
    requires AllSpace(s[j..]) && (j == 0 || !IsSpace(s[j - 1]))
    requires AllSpace(s[k..]) && (k == 0 || !IsSpace(s[k - 1]))
    ensures j == k
  {
    assert forall x :: j <= x < |s| ==> IsSpace(s[x]) by {
      forall x | j <= x < |s| ensures IsSpace(s[x]) { assert s[j..][x - j] == s[x]; }
    }
    assert forall x :: k <= x < |s| ==> IsSpace(s[x]) by {
      forall x | k <= x < |s| ensures IsSpace(s[x]) { assert s[k..][x - k] == s[x]; }
    }
  }

  /** TrimStart stops exactly at the first non-space character. */
  lemma TrimStartAt(s: string, i: nat)
    requires i <= |s| && AllSpace(s[..i])
    requires i == |s| || !IsSpace(s[i])
    ensures TrimStart(s) == s[i..]
  {
    TrimStartShape(s);
    var r := TrimStart(s);
    var k := |s| - |r|;
    assert k == |s| || !IsSpace(s[k]) by {
      if k < |s| {
        assert s[k] == r[0];
      }
    }
    LeadingCutUnique(s, i, k);
  }

  /** TrimEnd stops exactly after the last non-space character. */
  lemma TrimEndAt(s: string, j: nat)
    requires j <= |s| && AllSpace(s[j..])
    requires j == 0 || !IsSpace(s[j - 1])
    ensures TrimEnd(s) == s[..j]
  {
    TrimEndShape(s);
    var r := TrimEnd(s);
    var k := |r|;
    assert k == 0 || s[k - 1] == r[k - 1];
    TrailingCutUnique(s, j, k);
  }

  /** Strip characterised without reference to how it is computed: if
      `s[i..j]` is bracketed by whitespace only and neither starts nor ends
      with whitespace, it is what strip() returns. */
  lemma StripUnique(s: string, i: nat, j: nat)
    requires i <= j <= |s|
    requires AllSpace(s[..i]) && AllSpace(s[j..])
    requires i < j ==> !IsSpace(s[i]) && !IsSpace(s[j - 1])
    ensures Strip(s) == s[i..j]
  {
    if i < j {
      StripInner(s, i, j);
    } else {
      StripBlank(s, i);
    }
  }

  lemma StripInner(s: string, i: nat, j: nat)
    requires i < j <= |s|
    requires AllSpace(s[..i]) && AllSpace(s[j..])
    requires !IsSpace(s[i]) && !IsSpace(s[j - 1])
    ensures Strip(s) == s[i..j]
  {
    TrimStartAt(s, i);
    var t := s[i..];
    assert t[j - i..] == s[j..];
    assert t[j - i - 1] == s[j - 1];
    TrimEndAt(t, j - i);
    assert t[..j - i] == s[i..j];
  }

  /** A line made only of whitespace strips to the empty line. */
  lemma StripBlank(s: string, i: nat)
    requires i <= |s| && AllSpace(s[..i]) && AllSpace(s[i..])
    ensures Strip(s) == []
  {
    assert forall k :: 0 <= k < |s| ==> IsSpace(s[k]) by {
      forall k | 0 <= k < |s| ensures IsSpace(s[k]) {
        if k < i { assert s[..i][k] == s[k]; } else { assert s[i..][k - i] == s[k]; }
      }
    }
    assert s[..|s|] == s;
    TrimStartAt(s, |s|);
  }

  /** A line with no whitespace at either end is its own strip(). */
  lemma StripOfTrimmed(u: string)
    requires u == [] || (!IsSpace(u[0]) && !IsSpace(u[|u| - 1]))
    ensures Strip(u) == u
  {
    if u != [] {
      assert u[..0] == [] && u[|u|..] == [];
      StripInner(u, 0, |u|);
      assert u[0..|u|] == u;
    }
  }

  /** Normalising twice gives the same line as normalising once. */
  lemma NormalizeIdempotent(s: string)
    ensures Normalize(Normalize(s)) == Normalize(s)
  {
    var u := Normalize(s);
    StripOfTrimmed(u);
    LowerFixed(u);
  }

  /** Lower-casing leaves a line without capitals unchanged; in particular
      lower-casing twice is lower-casing once. */
  lemma LowerFixed(u: string)
    requires forall i :: 0 <= i < |u| ==> !IsUpper(u[i])
    ensures Lower(u) == u
  {
    var v := Lower(u);
    LowerAt(u);
    assert forall i :: 0 <= i < |u| ==> v[i] == u[i];
  }

  /** A single non-space character with any whitespace around it selects
      that character, lower-cased. */
  lemma PaddedChoice(pre: string, c: char, post: string)
    requires AllSpace(pre) && AllSpace(post) && !IsSpace(c)
    ensures Normalize(pre + [c] + post) == [LowerChar(c)]
  {
    var s := pre + [c] + post;
    assert s[..|pre|] == pre;
    assert s[|pre| + 1..] == post;
    StripUnique(s, |pre|, |pre| + 1);
    assert Strip(s) == [c];
    LowerAt([c]);
  }

  /** Conversely, a line that normalises to one character is that character
      (in either case) surrounded by whitespace. */
  lemma SingleCharChoice(s: string, k: char)
    requires Normalize(s) == [k]
    ensures exists i :: 0 <= i < |s| && AllSpace(s[..i]) && AllSpace(s[i + 1..]) && LowerChar(s[i]) == k
  {
    var t := TrimStart(s);
    var i := |s| - |t|;
    var r := TrimEnd(t);
    TrimStartShape(s);
    TrimEndShape(t);
    LowerAt(r);
    assert |r| == 1;
    assert s[i + 1..] == t[1..];
    assert LowerChar(s[i]) == k;
  }

  /** A client's "  B \r\n" selects the same option as "b". */
  lemma PaddedUpperB()
    ensures Normalize("  B \r\n") == "b"
  {
    PaddedChoice("  ", 'B', " \r\n");
    assert "  " + ['B'] + " \r\n" == "  B \r\n";
  }
}
