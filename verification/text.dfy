/** Text normalisation of table cells: Python's `str.strip()` followed by
    `str.upper()`, the pair that cleaning applies to the text key columns. */
module Text {

  /** The characters Python's `str.isspace()` accepts, i.e. what `str.strip()`
      with no argument removes from both ends. */
  predicate IsSpace(c: char) {
    || c == ' '
    || '\t' <= c <= '\r'
    || '\U{1C}' <= c <= '\U{1F}'
    || c == '\U{85}' || c == '\U{A0}' || c == '\U{1680}'
    || '\U{2000}' <= c <= '\U{200A}'
    || c == '\U{2028}' || c == '\U{2029}' || c == '\U{202F}' || c == '\U{205F}'
    || c == '\U{3000}'
  }

  predicate AllSpace(s: string) {
    forall k :: 0 <= k < |s| ==> IsSpace(s[k])
  }

  /** Neither end of `s` is whitespace: `str.strip()` has nothing left to do. */
  predicate IsStripped(s: string) {
    s == [] || (!IsSpace(s[0]) && !IsSpace(s[|s| - 1]))
  }

  /** The lower-case letters `str.upper()` changes within Basic Latin and
      the Latin-1 Supplement: `a`-`z`, `à`-`þ` without `÷`, `ÿ` and `µ`. */
  predicate IsLower(c: char) {
    || 'a' <= c <= 'z'
    || ('\U{E0}' <= c <= '\U{FE}' && c != '\U{F7}')
    || c == '\U{FF}'
    || c == '\U{B5}'
  }

  /** `str.upper()` on one character, for Basic Latin and the Latin-1
      Supplement (the accented letters of Spanish text included). Each
      lower-case letter goes to its own capital; every other character is
      kept. */
  function UpperChar(c: char): (u: char)
    ensures IsSpace(u) <==> IsSpace(c)
    ensures 'a' <= c <= 'z' ==> u as int == c as int - 32
    ensures '\U{E0}' <= c <= '\U{FE}' && c != '\U{F7}' ==> u as int == c as int - 32
    ensures c == '\U{FF}' ==> u == '\U{178}'
    ensures c == '\U{B5}' ==> u == '\U{39C}'
    ensures u != c <==> IsLower(c)
    ensures !IsLower(u)
  {
    if 'a' <= c <= 'z' || ('\U{E0}' <= c <= '\U{FE}' && c != '\U{F7}') then
      (c as int - 32) as char
    else if c == '\U{FF}' then '\U{178}'
    else if c == '\U{B5}' then '\U{39C}'
    else c
  }

  /** Two characters upper-case alike exactly when they are equal or one is
      the lower-case form of the other: no two different letters merge. */
  lemma UpperCharSame(c: char, d: char)
    ensures UpperChar(c) == UpperChar(d) <==>
      c == d || (IsLower(c) && UpperChar(c) == d) || (IsLower(d) && UpperChar(d) == c)
  {
  }

  /** `str.upper()`: every character upper-cased in place. */
  function Upper(s: string): (u: string)
    ensures |u| == |s|
    ensures forall k :: 0 <= k < |s| ==> u[k] == UpperChar(s[k])
    ensures forall k :: 0 <= k < |s| ==> !IsLower(u[k])
    ensures forall k :: 0 <= k < |s| ==> (u[k] != s[k] <==> IsLower(s[k]))
    ensures forall k :: 0 <= k < |s| ==> (IsSpace(u[k]) <==> IsSpace(s[k]))
  {
    seq(|s|, k requires 0 <= k < |s| => UpperChar(s[k]))
  }

  /** Number of whitespace characters at the front of `s`. */
  function LeadingSpaces(s: string): (n: nat)
    ensures n <= |s|
    ensures forall k :: 0 <= k < n ==> IsSpace(s[k])
    ensures n == |s| || !IsSpace(s[n])
  {
    if s != [] && IsSpace(s[0]) then 1 + LeadingSpaces(s[1..]) else 0
  }

  /** Number of whitespace characters at the back of `s`. */
  function TrailingSpaces(s: string): (n: nat)
    ensures n <= |s|
    ensures forall k :: |s| - n <= k < |s| ==> IsSpace(s[k])
    ensures n == |s| || !IsSpace(s[|s| - n - 1])
  {
    if s != [] && IsSpace(s[|s| - 1]) then 1 + TrailingSpaces(s[..|s| - 1]) else 0
  }

  /** Python's `str.strip()`: `s` without its leading and trailing
      whitespace (StripSlice and StripUnique characterise it fully). */
  function Strip(s: string): (r: string)
    ensures IsStripped(r)
    ensures |r| <= |s|
  {
    var i := LeadingSpaces(s);
    var rest := s[i..];
    var n := TrailingSpaces(rest);
    var j := |s| - n;
    assert i < j ==> s[i] == rest[0] && s[j - 1] == rest[|rest| - n - 1];
    s[i..j]
  }

  /** The stripped string is a slice of the input with only whitespace
      before and after it. */
  lemma StripSlice(s: string)
    ensures exists i, j :: 0 <= i <= j <= |s| && Strip(s) == s[i..j] && AllSpace(s[..i]) && AllSpace(s[j..])
  {
    var i := LeadingSpaces(s);
    var rest := s[i..];
    var n := TrailingSpaces(rest);
    var j := |s| - n;
    assert i <= j;
    LeadingAllSpace(s);
    TrailingAllSpace(rest);
    assert s[j..] == rest[|rest| - n..];
    assert Strip(s) == s[i..j];
  }

  lemma LeadingAllSpace(s: string)
    ensures AllSpace(s[..LeadingSpaces(s)])
  {
    var head := s[..LeadingSpaces(s)];
    forall k | 0 <= k < |head| ensures IsSpace(head[k]) {
      assert head[k] == s[k];
    }
  }

  lemma TrailingAllSpace(s: string)
    ensures AllSpace(s[|s| - TrailingSpaces(s)..])
  {
    var m := |s| - TrailingSpaces(s);
    var tail := s[m..];
    forall k | 0 <= k < |tail| ensures IsSpace(tail[k]) {
      assert tail[k] == s[m + k];
    }
  }

  /** The cleaning of one text cell: `.str.strip().str.upper()`. */
  function CleanText(s: string): (r: string)
    ensures IsStripped(r)
    ensures forall k :: 0 <= k < |r| ==> UpperChar(r[k]) == r[k]
  {
    var t := Strip(s);
    UpperStripped(t);
    Upper(t)
  }

  /** A cleaned cell is the upper-cased text of the input with only
      whitespace cut from either end. */
  lemma CleanTextKeepsMiddle(s: string)
    ensures exists i, j :: 0 <= i <= j <= |s| && CleanText(s) == Upper(s[i..j]) && AllSpace(s[..i]) && AllSpace(s[j..])
  {
    var t := Strip(s);
    StripSlice(s);
    var i, j :| 0 <= i <= j <= |s| && t == s[i..j] && AllSpace(s[..i]) && AllSpace(s[j..]);
    assert CleanText(s) == Upper(s[i..j]);
  }

  /** Two cells clean to the same text exactly when their stripped texts
      have the same length and agree position by position up to case. */
  lemma CleanTextSame(a: string, b: string)
    ensures CleanText(a) == CleanText(b) <==>
      && |Strip(a)| == |Strip(b)|
      && forall k :: 0 <= k < |Strip(a)| ==>
           Strip(a)[k] == Strip(b)[k]
           || (IsLower(Strip(a)[k]) && UpperChar(Strip(a)[k]) == Strip(b)[k])
           || (IsLower(Strip(b)[k]) && UpperChar(Strip(b)[k]) == Strip(a)[k])
  {
    var sa, sb := Strip(a), Strip(b);
    if CleanText(a) == CleanText(b) {
      forall k | 0 <= k < |sa|
        ensures sa[k] == sb[k] || (IsLower(sa[k]) && UpperChar(sa[k]) == sb[k]) || (IsLower(sb[k]) && UpperChar(sb[k]) == sa[k])
      {
        assert Upper(sa)[k] == Upper(sb)[k];
        UpperCharSame(sa[k], sb[k]);
      }
    }
    if |sa| == |sb| && forall k :: 0 <= k < |sa| ==>
         sa[k] == sb[k] || (IsLower(sa[k]) && UpperChar(sa[k]) == sb[k]) || (IsLower(sb[k]) && UpperChar(sb[k]) == sa[k])
    {
      forall k | 0 <= k < |sa| ensures Upper(sa)[k] == Upper(sb)[k] {
        UpperCharSame(sa[k], sb[k]);
      }
    }
  }

  lemma UpperStripped(s: string)
    requires IsStripped(s)
    ensures IsStripped(Upper(s))
  {
  }

  /** Strip is characterised by its contract: any whitespace-free-ended slice
      that has only whitespace around it is the stripped string. */
  lemma {:induction false} StripUnique(s: string, i: nat, j: nat)
    requires i <= j <= |s|
    requires AllSpace(s[..i]) && AllSpace(s[j..]) && IsStripped(s[i..j])
    ensures Strip(s) == s[i..j]
  {
    var i' := LeadingSpaces(s);
    var j' := |s| - TrailingSpaces(s[i'..]);
    assert Strip(s) == s[i'..j'];
    assert forall k :: 0 <= k < i ==> IsSpace(s[k]) by {
      forall k | 0 <= k < i ensures IsSpace(s[k]) { assert s[..i][k] == s[k]; }
    }
    assert forall k :: j <= k < |s| ==> IsSpace(s[k]) by {
      forall k | j <= k < |s| ensures IsSpace(s[k]) { assert s[j..][k - j] == s[k]; }
    }
    assert forall k :: 0 <= k < i' ==> IsSpace(s[k]) by {
      forall k | 0 <= k < i' ensures IsSpace(s[k]) { assert s[..i'][k] == s[k]; }
    }
    assert s[i'..][|s[i'..]| - TrailingSpaces(s[i'..])..] == s[j'..];
    assert forall k :: j' <= k < |s| ==> IsSpace(s[k]) by {
      forall k | j' <= k < |s| ensures IsSpace(s[k]) { assert s[j'..][k - j'] == s[k]; }
    }
    if i == j {
      // s is whitespace throughout, so both slices are empty
      assert i' == |s|;
    } else {
      assert !IsSpace(s[i]) by { assert s[i..j][0] == s[i]; }
      assert !IsSpace(s[j - 1]) by { assert s[i..j][j - i - 1] == s[j - 1]; }
      assert i' == i;
      assert j' == j;
    }
  }

  /** Stripping an already stripped string changes nothing. */
  lemma StripStripped(s: string)
    requires IsStripped(s)
    ensures Strip(s) == s
  {
    assert s[..0] == [] && s[|s|..] == [];
    assert s[0..|s|] == s;
    StripUnique(s, 0, |s|);
  }

  /** Cleaning a text cell twice is the same as cleaning it once. */
  lemma CleanTextIdempotent(s: string)
    ensures CleanText(CleanText(s)) == CleanText(s)
  {
    var c := CleanText(s);
    StripStripped(c);
    assert Upper(c) == c;
  }
}
