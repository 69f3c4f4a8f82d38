/** The Python `str` operations the converter relies on, written out on
    `string`, a sequence of Unicode scalar values. A Python `str` can also
    hold lone surrogates (`os.listdir` gives them for file names whose bytes
    do not decode); such strings are not `string`s. */
module PyStr {

  /** `str.isspace()` for one character: the code points Python treats as
      whitespace, which is the set `strip()` without arguments removes. */
  predicate IsSpace(c: char): (r: bool)
    ensures c as int < 0x80 ==> (r <==> c in "\t\n\U{B}\U{C}\r\U{1C}\U{1D}\U{1E}\U{1F} ")
  {
    var n := c as int;
    || 0x09 <= n <= 0x0D
    || 0x1C <= n <= 0x20
    || n == 0x85 || n == 0xA0 || n == 0x1680
    || 0x2000 <= n <= 0x200A
    || n == 0x2028 || n == 0x2029 || n == 0x202F || n == 0x205F || n == 0x3000
  }

  /** The characters a `strip` call removes: `strip()` removes whitespace,
      `strip(c)` removes the one character `c`. */
  datatype CharClass = Whitespace | Exactly(c: char)

  predicate Drops(chars: CharClass, c: char) {
    match chars
    case Whitespace => IsSpace(c)
    case Exactly(d) => c == d
  }

  /** The index of the first character at or after `i` that `chars` does not
      name, or `|s|`: where `s.lstrip(chars)` starts. */
  function SkipLeft(s: string, chars: CharClass, i: nat): (k: nat)
    requires i <= |s|
    ensures i <= k <= |s|
    ensures forall j :: i <= j < k ==> Drops(chars, s[j])
    ensures k < |s| ==> !Drops(chars, s[k])
    decreases |s| - i
  {
    if i == |s| || !Drops(chars, s[i]) then i else SkipLeft(s, chars, i + 1)
  }

  /** One past the index of the last character before `j` that `chars` does
      not name, or 0: where `s.rstrip(chars)` ends. */
  function SkipRight(s: string, chars: CharClass, j: nat): (k: nat)
    requires j <= |s|
    ensures k <= j
    ensures forall m :: k <= m < j ==> Drops(chars, s[m])
    ensures 0 < k ==> !Drops(chars, s[k - 1])
  {
    if j == 0 || !Drops(chars, s[j - 1]) then j else SkipRight(s, chars, j - 1)
  }

  /** `s.strip(chars)`: the slice of `s` between the leading and the trailing
      run of dropped characters; it neither starts nor ends with a dropped
      character, and it is empty exactly when every character is dropped. */
  function Strip(s: string, chars: CharClass): (r: string)
    ensures |r| <= |s|
    ensures r == [] || (!Drops(chars, r[0]) && !Drops(chars, r[|r| - 1]))
  {
    var lo := SkipLeft(s, chars, 0);
    var hi := SkipRight(s, chars, |s|);
    if lo < hi then s[lo..hi] else []
  }

  /** Every character of `s.strip(chars)` is one of `s`. */
  lemma StripKeepsChars(s: string, chars: CharClass)
    ensures forall i :: 0 <= i < |Strip(s, chars)| ==> Strip(s, chars)[i] in s
  {
  }

  /** `s.strip(chars)` is empty exactly when `chars` names every character. */
  lemma StripEmpty(s: string, chars: CharClass)
    ensures Strip(s, chars) == [] <==> forall i :: 0 <= i < |s| ==> Drops(chars, s[i])
  {
    var lo := SkipLeft(s, chars, 0);
    if lo < |s| {
      assert SkipRight(s, chars, |s|) > lo;
    }
  }

  /** `s.strip(chars)` is `s[lo..hi]` when `chars` names every character
      outside that slice and neither end of it. */
  lemma StripSlice(s: string, chars: CharClass, lo: nat, hi: nat)
    requires lo < hi <= |s|
    requires forall i :: 0 <= i < lo ==> Drops(chars, s[i])
    requires forall i :: hi <= i < |s| ==> Drops(chars, s[i])
    requires !Drops(chars, s[lo]) && !Drops(chars, s[hi - 1])
    ensures Strip(s, chars) == s[lo..hi]
  {
    SkipLeftFrom(s, chars, 0, lo);
    SkipRightFrom(s, chars, |s|, hi);
  }

  lemma {:induction false} SkipLeftFrom(s: string, chars: CharClass, i: nat, lo: nat)
    requires i <= lo < |s|
    requires forall j :: i <= j < lo ==> Drops(chars, s[j])
    requires !Drops(chars, s[lo])
    ensures SkipLeft(s, chars, i) == lo
    decreases lo - i
  {
    if i < lo {
      SkipLeftFrom(s, chars, i + 1, lo);
    }
  }

  lemma {:induction false} SkipRightFrom(s: string, chars: CharClass, j: nat, hi: nat)
    requires 0 < hi <= j <= |s|
    requires forall m :: hi <= m < j ==> Drops(chars, s[m])
    requires !Drops(chars, s[hi - 1])
    ensures SkipRight(s, chars, j) == hi
    decreases j - hi
  {
    if hi < j {
      SkipRightFrom(s, chars, j - 1, hi);
    }
  }

  /** One dropped character on each side of `s` is stripped and nothing more,
      when `s` has nothing to drop at either end. */
  lemma StripWrapped(s: string, chars: CharClass, c: char)
    requires s != [] && Drops(chars, c) && !Drops(chars, s[0]) && !Drops(chars, s[|s| - 1])
    ensures Strip([c] + s + [c], chars) == s
  {
    var t := [c] + s + [c];
    assert t[1..|t| - 1] == s;
    assert t[1] == s[0] && t[|t| - 2] == s[|s| - 1];
    StripSlice(t, chars, 1, |t| - 1);
  }

  /** Stripping leaves a string alone when it has nothing to drop at either end. */
  lemma StripUnchanged(s: string, chars: CharClass)
    requires s != [] && !Drops(chars, s[0]) && !Drops(chars, s[|s| - 1])
    ensures Strip(s, chars) == s
  {
  }

  /** `str.replace(old, new)` for single characters: every `from` becomes
      `to`, and nothing else changes. */
  function Replace(s: string, from: char, to: char): (r: string)
    ensures |r| == |s|
    ensures from != to ==> from !in r
    ensures forall i :: 0 <= i < |s| ==> r[i] == (if s[i] == from then to else s[i])
  {
    if s == [] then [] else [if s[0] == from then to else s[0]] + Replace(s[1..], from, to)
  }

  /** `str.lower()` on one character, for the ASCII letters. */
  function LowerChar(c: char): char {
    if 'A' <= c <= 'Z' then (c as int + 32) as char else c
  }

  function Lower(s: string): (r: string)
    ensures |r| == |s|
    ensures forall i :: 0 <= i < |s| ==> r[i] == LowerChar(s[i])
  {
    if s == [] then [] else [LowerChar(s[0])] + Lower(s[1..])
  }

  /** Lower-casing works character by character, so it distributes over `+`. */
  lemma LowerAppend(a: string, b: string)
    ensures Lower(a + b) == Lower(a) + Lower(b)
  {
    assert forall i :: 0 <= i < |a + b| ==> Lower(a + b)[i] == (Lower(a) + Lower(b))[i] by {
      forall i | 0 <= i < |a + b| ensures Lower(a + b)[i] == (Lower(a) + Lower(b))[i] {
        if i < |a| { assert (a + b)[i] == a[i]; } else { assert (a + b)[i] == b[i - |a|]; }
      }
    }
  }

  /** A string ends with what is appended to it. */
  lemma EndsWithAppended(s: string, suffix: string)
    ensures EndsWith(s + suffix, suffix)
  {
    assert (s + suffix)[|s|..] == suffix;
  }

  /** `s.endswith(suffix)`: the last `|suffix|` characters of `s` are those
      of `suffix`, in order. */
  predicate EndsWith(s: string, suffix: string) {
    |suffix| <= |s| && s[|s| - |suffix|..] == suffix
  }

  /** `s.find(c)`: the index of the first `c` in `s`, or -1. */
  function Find(s: string, c: char): (k: int)
    ensures -1 <= k < |s|
    ensures 0 <= k ==> s[k] == c
    ensures forall j :: 0 <= j < |s| && (k < 0 || j < k) ==> s[j] != c
  {
    if s == [] then -1
    else if s[0] == c then 0
    else
      var k := Find(s[1..], c);
      if k < 0 then -1 else k + 1
  }
}
