/** `sanitize_filename` (convert_keep_to_markdown.py:9-26): turns a note
    title into the stem of a file name. */
module Sanitizer {
  import opened PyStr

  const MAX_LEN := 200
  const UNTITLED := "Untitled Note"

  // The nine characters of the regular-expression class on line 12:
  // backslash, slash, star, question mark, colon, double quote, the two
  // angle brackets and the bar.
  predicate IsForbidden(c: char) {
    c == '\\' || c == '/' || c == '*' || c == '?' || c == ':' || c == '"' || c == '<' || c == '>' || c == '|'
  }

  /** The substitution of line 12: `s` with every forbidden character
      deleted and every other character kept, in order. */
  function DeleteForbidden(s: string): (r: string)
    ensures |r| <= |s|
    ensures forall i :: 0 <= i < |r| ==> !IsForbidden(r[i])
    ensures (forall i :: 0 <= i < |s| ==> !IsForbidden(s[i])) ==> r == s
  {
    if s == [] then []
    else (if IsForbidden(s[0]) then [] else [s[0]]) + DeleteForbidden(s[1..])
  }

  /** Lines 12-16: the deletion and the two replacements. Neither a
      forbidden character nor `+` survives them. */
  function Substituted(name: string): (r: string)
    ensures forall i :: 0 <= i < |r| ==> !IsForbidden(r[i]) && r[i] != '+'
  {
    var deleted := DeleteForbidden(name);
    var colons := Replace(deleted, ':', '_');
    Replace(colons, '+', '_')
  }

  /** Line 18, `strip().strip('.')`: a piece of the substituted name, so
      still free of forbidden characters and `+`, that neither starts nor
      ends with a dot. */
  function Cleaned(name: string): (r: string)
    ensures forall i :: 0 <= i < |r| ==> !IsForbidden(r[i]) && r[i] != '+'
    ensures r == [] || (r[0] != '.' && r[|r| - 1] != '.')
  {
    var plus := Substituted(name);
    assert forall c :: c in plus ==> !IsForbidden(c) && c != '+';
    var spaces := Strip(plus, Whitespace);
    StripKeepsChars(plus, Whitespace);
    assert forall c :: c in spaces ==> !IsForbidden(c) && c != '+';
    StripKeepsChars(spaces, Exactly('.'));
    Strip(spaces, Exactly('.'))
  }

  /** Python's `all(c == '.' for c in s)`. */
  predicate AllDots(s: string) {
    forall i :: 0 <= i < |s| ==> s[i] == '.'
  }

  /** Lines 20-25: the fallback name and the 200-character limit. The result
      is never empty, never longer than 200, and brings in no forbidden
      character or `+` that the cleaned name did not have. */
  function Finish(cleaned: string): (r: string)
    ensures 0 < |r| <= MAX_LEN
    ensures (forall i :: 0 <= i < |cleaned| ==> !IsForbidden(cleaned[i]) && cleaned[i] != '+') ==>
              forall i :: 0 <= i < |r| ==> !IsForbidden(r[i]) && r[i] != '+'
  {
    var named := if cleaned == [] || AllDots(cleaned) then UNTITLED else cleaned;
    if |named| > MAX_LEN then named[..MAX_LEN] else named
  }

  /** `sanitize_filename(name)`: never empty, at most 200 characters, and free
      of the forbidden characters and of `+`, the fallback name included. */
  function Sanitize(name: string): (r: string)
    ensures 0 < |r| <= MAX_LEN
    ensures forall i :: 0 <= i < |r| ==> !IsForbidden(r[i]) && r[i] != '+'
  {
    var cleaned := Cleaned(name);
    assert forall i :: 0 <= i < |cleaned| ==> !IsForbidden(cleaned[i]) && cleaned[i] != '+';
    Finish(cleaned)
  }

  /** The all-dots test of line 20 never decides anything: the fallback is
      taken exactly when the cleaned name is empty, a non-empty cleaned name
      is kept when it fits and cut to its first 200 characters otherwise. */
  lemma SanitizeCases(name: string)
    ensures Cleaned(name) == [] ==> Sanitize(name) == UNTITLED
    ensures Cleaned(name) != [] ==> !AllDots(Cleaned(name))
    ensures 0 < |Cleaned(name)| <= MAX_LEN ==> Sanitize(name) == Cleaned(name)
    ensures |Cleaned(name)| > MAX_LEN ==> Sanitize(name) == Cleaned(name)[..MAX_LEN]
  {
  }

  /** The deletion works character by character: it distributes over `+`, so
      with its contract it keeps the input's other characters in order. */
  lemma {:induction false} DeleteForbiddenAppend(a: string, b: string)
    ensures DeleteForbidden(a + b) == DeleteForbidden(a) + DeleteForbidden(b)
  {
    if a != [] {
      var head := if IsForbidden(a[0]) then [] else [a[0]];
      assert (a + b)[0] == a[0] && (a + b)[1..] == a[1..] + b;
      DeleteForbiddenAppend(a[1..], b);
      calc {
        DeleteForbidden(a + b);
        head + DeleteForbidden(a[1..] + b);
        head + (DeleteForbidden(a[1..]) + DeleteForbidden(b));
        (head + DeleteForbidden(a[1..])) + DeleteForbidden(b);
      }
    } else {
      assert a + b == b;
    }
  }

  /** Every character the deletion keeps comes from its input. */
  lemma {:induction false} DeleteForbiddenKeeps(s: string)
    ensures forall c :: c in DeleteForbidden(s) ==> c in s
  {
    if s != [] {
      DeleteForbiddenKeeps(s[1..]);
    }
  }

  /** Every forbidden character is deleted, not replaced: removing one from
      the input does not change the result. */
  lemma ForbiddenIsDeleted(a: string, c: char, b: string)
    requires IsForbidden(c)
    ensures Sanitize(a + [c] + b) == Sanitize(a + b)
  {
    DeleteForbiddenAppend(a + [c], b);
    DeleteForbiddenAppend(a, [c]);
    DeleteForbiddenAppend(a, b);
    assert DeleteForbidden([c]) == [];
    assert DeleteForbidden(a + [c] + b) == DeleteForbidden(a + b);
    assert Substituted(a + [c] + b) == Substituted(a + b);
    assert Cleaned(a + [c] + b) == Cleaned(a + b);
  }

  /** Every other character is kept, in its place between what the deletion
      makes of the text before it and of the text after it. */
  lemma AllowedIsKept(a: string, c: char, b: string)
    requires !IsForbidden(c)
    ensures DeleteForbidden(a + [c] + b) == DeleteForbidden(a) + [c] + DeleteForbidden(b)
  {
    DeleteForbiddenAppend(a + [c], b);
    DeleteForbiddenAppend(a, [c]);
    assert DeleteForbidden([c]) == [c];
  }

  /** Colons are deleted, not turned into `_`: removing one `:` from the input
      does not change the result. */
  lemma ColonIsDeleted(a: string, b: string)
    ensures Sanitize(a + ":" + b) == Sanitize(a + b)
  {
    ForbiddenIsDeleted(a, ':', b);
  }

  /** Line 14 is dead code: no colon survives line 12. */
  lemma ColonReplacementIsDead(name: string)
    ensures Replace(DeleteForbidden(name), ':', '_') == DeleteForbidden(name)
  {
  }

  /** A non-empty name with no forbidden character, no `+`, and no
      whitespace or dot at either end. */
  predicate IsCleanName(name: string) {
    && 0 < |name|
    && (forall i :: 0 <= i < |name| ==> !IsForbidden(name[i]) && name[i] != '+')
    && !IsSpace(name[0]) && !IsSpace(name[|name| - 1])
    && name[0] != '.' && name[|name| - 1] != '.'
  }

  /** A name with no forbidden character, no `+`, no leading or trailing
      whitespace or dot, and at most 200 characters comes back unchanged. */
  lemma SanitizeFixedPoint(name: string)
    requires IsCleanName(name) && |name| <= MAX_LEN
    ensures Sanitize(name) == name
  {
    SubstitutedUnchanged(name);
    SanitizeKeepsSubstituted(name);
  }

  /** When the substitutions alone already give a short name with no outer
      whitespace or dot, that name is the result. */
  lemma SanitizeKeepsSubstituted(name: string)
    requires var s := Substituted(name);
      && 0 < |s| <= MAX_LEN
      && !IsSpace(s[0]) && !IsSpace(s[|s| - 1])
      && s[0] != '.' && s[|s| - 1] != '.'
    ensures Sanitize(name) == Substituted(name)
  {
    var s := Substituted(name);
    StripUnchanged(s, Whitespace);
    StripUnchanged(s, Exactly('.'));
    assert Cleaned(name) == s;
  }

  /** Input made only of whitespace and forbidden characters falls back to
      "Untitled Note". */
  lemma OnlySpacesFallBack(name: string)
    requires forall i :: 0 <= i < |name| ==> IsSpace(name[i]) || IsForbidden(name[i])
    ensures Sanitize(name) == UNTITLED
  {
    DeleteForbiddenKeeps(name);
    var plus := Substituted(name);
    assert forall i :: 0 <= i < |plus| ==> IsSpace(plus[i]) by {
      forall i | 0 <= i < |plus| ensures IsSpace(plus[i]) {
        assert DeleteForbidden(name)[i] in name;
      }
    }
    StripEmpty(plus, Whitespace);
  }

  /** Input made only of dots and forbidden characters falls back too. */
  lemma OnlyDotsFallBack(name: string)
    requires forall i :: 0 <= i < |name| ==> name[i] == '.' || IsForbidden(name[i])
    ensures Sanitize(name) == UNTITLED
  {
    DeleteForbiddenKeeps(name);
    var plus := Substituted(name);
    assert forall i :: 0 <= i < |plus| ==> plus[i] == '.' by {
      forall i | 0 <= i < |plus| ensures plus[i] == '.' {
        assert DeleteForbidden(name)[i] in name;
      }
    }
    var spaces := Strip(plus, Whitespace);
    StripKeepsChars(plus, Whitespace);
    StripEmpty(spaces, Exactly('.'));
  }

  /** The substitutions leave alone a name that has no forbidden character
      and no `+`. */
  lemma SubstitutedUnchanged(name: string)
    requires forall i :: 0 <= i < |name| ==> !IsForbidden(name[i]) && name[i] != '+'
    ensures Substituted(name) == name
  {
  }

  /** Without forbidden characters only the `+` replacement acts. */
  lemma SubstitutedOfClean(name: string)
    requires forall i :: 0 <= i < |name| ==> !IsForbidden(name[i])
    ensures Substituted(name) == Replace(name, '+', '_')
  {
  }

  /** `strip('.')` runs after `strip()`, so removing dots can expose
      spaces. Wrapping a clean name as `w.w` + x + `w.w` for a whitespace
      character `w` (the shape of `" . a . "`) gives `w` + x + `w`, which
      keeps whitespace at both ends. */
  lemma DotsExposeSpaces(x: string, w: char)
    requires IsCleanName(x) && |x| <= MAX_LEN - 2 && IsSpace(w)
    ensures Sanitize([w] + (['.'] + ([w] + x + [w]) + ['.']) + [w]) == [w] + x + [w]
  {
    var padded := [w] + x + [w];
    var dotted := ['.'] + padded + ['.'];
    var name := [w] + dotted + [w];
    assert forall i :: 0 <= i < |name| ==> name[i] == w || name[i] == '.' || name[i] in x;
    SubstitutedUnchanged(name);
    assert padded[0] == w && padded[1] == x[0];
    StripWrapped(padded, Exactly('.'), '.');
    StripWrapped(dotted, Whitespace, w);
    SanitizeThrough(name, dotted, padded);
  }

  /** Whitespace around a clean name is stripped. */
  lemma PaddingStripped(x: string, w: char)
    requires IsCleanName(x) && |x| <= MAX_LEN && IsSpace(w)
    ensures Sanitize([w] + x + [w]) == x
  {
    var padded := [w] + x + [w];
    assert forall i :: 0 <= i < |padded| ==> padded[i] == w || padded[i] in x;
    SubstitutedUnchanged(padded);
    StripWrapped(x, Whitespace, w);
    StripUnchanged(x, Exactly('.'));
    SanitizeThrough(padded, x, x);
  }

  /** Sanitizing the name of `DotsExposeSpaces` once more strips the exposed
      whitespace, so `Sanitize` is not idempotent. */
  lemma NotIdempotent(x: string, w: char)
    requires IsCleanName(x) && |x| <= MAX_LEN - 2 && IsSpace(w)
    ensures Sanitize(Sanitize([w] + (['.'] + ([w] + x + [w]) + ['.']) + [w])) == x
    ensures Sanitize(Sanitize([w] + (['.'] + ([w] + x + [w]) + ['.']) + [w])) != Sanitize([w] + (['.'] + ([w] + x + [w]) + ['.']) + [w])
  {
    DotsExposeSpaces(x, w);
    PaddingStripped(x, w);
  }

  /** `Sanitize` read off its two strips, for a name the substitutions keep. */
  lemma SanitizeThrough(name: string, spaces: string, dots: string)
    requires Substituted(name) == name
    requires Strip(name, Whitespace) == spaces && Strip(spaces, Exactly('.')) == dots
    requires dots != [] && !AllDots(dots) && |dots| <= MAX_LEN
    ensures Sanitize(name) == dots
  {
  }

  /** The shape of `"My Note: Plan+B"`, which becomes `"My Note Plan_B"`: a
      colon between clean parts disappears and a plus becomes `_`. */
  lemma ColonAndPlus(a: string, b: string, c: string)
    requires IsCleanName(a) && IsCleanName(c)
    requires forall i :: 0 <= i < |b| ==> !IsForbidden(b[i]) && b[i] != '+'
    requires |a| + |b| + |c| < MAX_LEN
    ensures Sanitize(a + ":" + (b + "+" + c)) == a + (b + "_" + c)
  {
    var name := a + (b + "+" + c);
    var want := a + (b + "_" + c);
    PlusReplaced(a, b, c);
    assert want[0] == a[0] && want[|want| - 1] == c[|c| - 1];
    SanitizeKeepsSubstituted(name);
    ColonIsDeleted(a, b + "+" + c);
  }

  lemma PlusReplaced(a: string, b: string, c: string)
    requires forall i :: 0 <= i < |a| ==> !IsForbidden(a[i]) && a[i] != '+'
    requires forall i :: 0 <= i < |b| ==> !IsForbidden(b[i]) && b[i] != '+'
    requires forall i :: 0 <= i < |c| ==> !IsForbidden(c[i]) && c[i] != '+'
    ensures Substituted(a + (b + "+" + c)) == a + (b + "_" + c)
  {
    var name := a + (b + "+" + c);
    var want := a + (b + "_" + c);
    var k := |a| + |b|;
    assert forall i :: 0 <= i < |name| ==>
      name[i] == (if i < |a| then a[i] else if i < k then b[i - |a|]
                  else if i == k then '+' else c[i - k - 1]);
    assert forall i :: 0 <= i < |want| ==>
      want[i] == (if i < |a| then a[i] else if i < k then b[i - |a|]
                  else if i == k then '_' else c[i - k - 1]);
    SubstitutedOfClean(name);
  }

  /** A name made only of dots and whitespace need not fall back: `strip()`
      stops at the outer dots, so `.w.` for a whitespace character `w` comes
      out as `w`. */
  lemma DotsAroundSpace(w: char)
    requires IsSpace(w)
    ensures Sanitize(['.', w, '.']) == [w]
  {
    var name := ['.', w, '.'];
    SubstitutedUnchanged(name);
    StripUnchanged(name, Whitespace);
    StripWrapped([w], Exactly('.'), '.');
    assert ['.'] + [w] + ['.'] == name;
    SanitizeThrough(name, name, [w]);
  }

  /** The cut to 200 characters can end the name in a space: a clean name
      of 199 characters followed by `" b"` keeps its first 200 characters,
      the last of which is the space. */
  lemma TruncationCanEndInSpace(x: string)
    requires IsCleanName(x) && |x| == MAX_LEN - 1
    ensures Sanitize(x + " b") == x + " "
  {
    var name := x + " b";
    assert forall i :: 0 <= i < |name| ==> name[i] == (if i < |x| then x[i] else " b"[i - |x|]);
    SubstitutedUnchanged(name);
    StripUnchanged(name, Whitespace);
    StripUnchanged(name, Exactly('.'));
    assert Cleaned(name) == name;
    assert name[..MAX_LEN] == x + " ";
  }
}
