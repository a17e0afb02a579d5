/**
 * `slugify`: lower-case, trim, drop every character that is not a word
 * character, whitespace or `-`, turn each whitespace run into `-`, then
 * collapse each run of two or more `-` into one.
 */
module Slug {
  import Seqs

  /** `\s` of a JavaScript regular expression; also exactly what `trim` removes. */
  predicate IsSpace(c: char) {
    || c == ' ' || c == '\t' || c == '\n' || c == '\r' || c == '\U{000B}' || c == '\U{000C}'
    || c == '\U{00A0}' || c == '\U{1680}' || ('\U{2000}' <= c <= '\U{200A}')
    || c == '\U{2028}' || c == '\U{2029}' || c == '\U{202F}' || c == '\U{205F}'
    || c == '\U{3000}' || c == '\U{FEFF}'
  }

  predicate IsUpper(c: char) {
    'A' <= c <= 'Z'
  }

  /** `\w` without the `u` flag: ASCII letters, digits and `_`. */
  predicate IsWord(c: char) {
    'a' <= c <= 'z' || IsUpper(c) || '0' <= c <= '9' || c == '_'
  }

  predicate IsHyphen(c: char) {
    c == '-'
  }

  /** What survives `[^\w\s-]` removal. */
  predicate IsKept(c: char) {
    IsWord(c) || IsSpace(c) || IsHyphen(c)
  }

  /** A character a slug may contain. */
  predicate IsSlugChar(c: char) {
    'a' <= c <= 'z' || '0' <= c <= '9' || c == '_' || c == '-'
  }

  /** Slug characters are kept by the filter and are not whitespace. */
  lemma SlugCharFacts(c: char)
    requires IsSlugChar(c)
    ensures IsKept(c) && !IsSpace(c)
  {
  }

  /** Whitespace is neither a word character nor a hyphen. */
  lemma SpaceFacts(c: char)
    requires IsSpace(c)
    ensures !IsWord(c) && !IsHyphen(c)
  {
  }

  /** Two hyphens never stand next to each other. */
  ghost predicate NoDoubleHyphen(s: string) {
    forall i :: 0 <= i < |s| - 1 ==> !DoubleAt(s, i)
  }

  /** `s` holds `--` at position `i`. */
  predicate DoubleAt(s: string, i: int)
    requires 0 <= i < |s| - 1
  {
    s[i] == '-' && s[i + 1] == '-'
  }

  /**
   * `toLowerCase` of one character, as far as it matters for the slug: ASCII
   * capitals, KELVIN SIGN (lower-cased to `k`) and LATIN CAPITAL LETTER I WITH
   * DOT ABOVE (lower-cased to `i` followed by a combining dot). Every other
   * character is kept as is: its lower-case form is a non-word, non-space
   * character too, so the later steps drop either the same way.
   */
  function LowerChar(c: char): (r: string)
    ensures forall i :: 0 <= i < |r| ==> !IsUpper(r[i])
    ensures IsUpper(c) ==> |r| == 1 && 'a' <= r[0] <= 'z' && r[0] as int - 'a' as int == c as int - 'A' as int
    ensures c == '\U{212A}' ==> r == "k"
    ensures c == '\U{0130}' ==> r == "i\U{0307}"
    ensures !IsUpper(c) && c != '\U{212A}' && c != '\U{0130}' ==> r == [c]
  {
    if IsUpper(c) then [(c as int + 32) as char]
    else if c == '\U{212A}' then ['k']
    else if c == '\U{0130}' then ['i', '\U{0307}']
    else [c]
  }

  /**
   * `toLowerCase`, character by character. Only LATIN CAPITAL LETTER I WITH DOT
   * ABOVE lengthens the string; without it each character is lowered in place.
   */
  function ToLower(s: string): (r: string)
    ensures forall i :: 0 <= i < |r| ==> !IsUpper(r[i])
  {
    if |s| == 0 then [] else LowerChar(s[0]) + ToLower(s[1..])
  }

  /** Without LATIN CAPITAL LETTER I WITH DOT ABOVE, `toLowerCase` lowers each character in place. */
  lemma {:induction false} ToLowerInPlace(s: string)
    requires forall i :: 0 <= i < |s| ==> s[i] != '\U{0130}'
    ensures |ToLower(s)| == |s|
    ensures forall i :: 0 <= i < |s| ==> LowerChar(s[i]) == [ToLower(s)[i]]
  {
    if |s| > 0 {
      var r, rest := ToLower(s), ToLower(s[1..]);
      assert forall i :: 0 <= i < |s[1..]| ==> s[1..][i] != '\U{0130}' by {
        forall i | 0 <= i < |s[1..]| ensures s[1..][i] != '\U{0130}' { assert s[1..][i] == s[i + 1]; }
      }
      ToLowerInPlace(s[1..]);
      assert |LowerChar(s[0])| == 1;
      assert r == LowerChar(s[0]) + rest;
      forall i | 0 <= i < |s|
        ensures LowerChar(s[i]) == [r[i]]
      {
        if i > 0 {
          assert s[i] == s[1..][i - 1] && r[i] == rest[i - 1];
        }
      }
    }
  }

  /** A string of slug characters is already lower case. */
  lemma {:induction false} ToLowerKeepsSlug(s: string)
    requires All(s, IsSlugChar)
    ensures ToLower(s) == s
  {
    if |s| > 0 {
      SuffixChars(s, 1, IsSlugChar);
      ToLowerKeepsSlug(s[1..]);
      assert s == [s[0]] + s[1..];
    }
  }

  /** Lower-casing works on each part of a string separately. */
  lemma {:induction false} ToLowerAppend(a: string, b: string)
    ensures ToLower(a + b) == ToLower(a) + ToLower(b)
  {
    if |a| > 0 {
      assert (a + b)[1..] == a[1..] + b;
      ToLowerAppend(a[1..], b);
    } else {
      assert a + b == b;
    }
  }

  /** The longest suffix of `s` that does not start with a `p` character. */
  function DropWhile(s: string, p: char -> bool): (r: string)
    ensures |r| <= |s| && r == s[|s| - |r|..]
    ensures forall i :: 0 <= i < |s| - |r| ==> p(s[i])
    ensures |r| > 0 ==> !p(r[0])
  {
    if |s| > 0 && p(s[0]) then
      var r := DropWhile(s[1..], p);
      assert s[1..][|s| - 1 - |r|..] == s[|s| - |r|..];
      assert forall i :: 1 <= i < |s| - |r| ==> s[i] == s[1..][i - 1];
      r
    else s
  }

  /** The longest prefix of `s` that does not end with a `p` character. */
  function DropWhileEnd(s: string, p: char -> bool): (r: string)
    ensures |r| <= |s| && r == s[..|r|]
    ensures forall i :: |r| <= i < |s| ==> p(s[i])
    ensures |r| > 0 ==> !p(r[|r| - 1])
  {
    if |s| > 0 && p(s[|s| - 1]) then
      var r := DropWhileEnd(s[..|s| - 1], p);
      assert s[..|s| - 1][..|r|] == s[..|r|];
      assert forall i :: |r| <= i < |s| - 1 ==> s[i] == s[..|s| - 1][i];
      r
    else s
  }

  /** `trim`: strips leading and trailing whitespace and nothing else. */
  function Trim(s: string): (r: string)
    ensures |r| > 0 ==> !IsSpace(r[0]) && !IsSpace(r[|r| - 1])
    ensures exists start :: TrimmedAt(s, r, start)
    ensures |s| == 0 || (!IsSpace(s[0]) && !IsSpace(s[|s| - 1])) ==> r == s
  {
    var r := DropWhileEnd(DropWhile(s, IsSpace), IsSpace);
    TrimBlock(s);
    r
  }

  /** What `trim` keeps is the block between the leading and the trailing whitespace. */
  lemma TrimBlock(s: string)
    ensures TrimmedAt(s, DropWhileEnd(DropWhile(s, IsSpace), IsSpace), |s| - |DropWhile(s, IsSpace)|)
  {
    DropBothAround(s, IsSpace);
  }

  /** Dropping `p` characters from both ends leaves a block surrounded by them. */
  lemma DropBothAround(s: string, p: char -> bool)
    ensures Around(s, DropWhileEnd(DropWhile(s, p), p), |s| - |DropWhile(s, p)|, p)
  {
    var t := DropWhile(s, p);
    var r := DropWhileEnd(t, p);
    SuffixIndex(s, t);
    PrefixIndex(t, r);
    AroundOf(s, t, r, p);
  }

  /**
   * Dropping `p` characters from the front of `s` (leaving `t`) and then from
   * the back of `t` (leaving `r`) leaves a block surrounded by `p` characters.
   */
  lemma AroundOf(s: string, t: string, r: string, p: char -> bool)
    requires |t| <= |s| && forall i :: 0 <= i < |t| ==> t[i] == s[|s| - |t| + i]
    requires forall i :: 0 <= i < |s| - |t| ==> p(s[i])
    requires |r| <= |t| && forall i :: 0 <= i < |r| ==> r[i] == t[i]
    requires forall k :: |r| <= k < |t| ==> p(t[k])
    ensures Around(s, r, |s| - |t|, p)
  {
    var start := |s| - |t|;
    forall k | start + |r| <= k < |s|
      ensures p(s[k])
    {
      assert s[k] == t[k - start];
    }
  }

  lemma SuffixIndex(s: string, t: string)
    requires |t| <= |s| && t == s[|s| - |t|..]
    ensures forall i :: 0 <= i < |t| ==> t[i] == s[|s| - |t| + i]
  {
  }

  lemma PrefixIndex(t: string, r: string)
    requires |r| <= |t| && r == t[..|r|]
    ensures forall i :: 0 <= i < |r| ==> r[i] == t[i]
  {
  }

  /** `r` is the block of `s` from `start`, and every character around it satisfies `p`. */
  predicate Around(s: string, r: string, start: int, p: char -> bool) {
    && 0 <= start && start + |r| <= |s|
    && (forall i :: 0 <= i < |r| ==> r[i] == s[start + i])
    && (forall k :: 0 <= k < start ==> p(s[k]))
    && (forall k :: start + |r| <= k < |s| ==> p(s[k]))
  }

  /** `r` is the block of `s` from `start`, and everything around it is whitespace. */
  predicate TrimmedAt(s: string, r: string, start: int) {
    Around(s, r, start, IsSpace)
  }

  /** `replace(/[^\w\s-]/g, '')` */
  function RemoveDisallowed(s: string): (r: string)
    ensures forall i :: 0 <= i < |r| ==> IsKept(r[i])
    ensures forall c :: c in r <==> c in s && IsKept(c)
    ensures |r| == Seqs.Count(s, IsKept)
  {
    Seqs.Filter(s, IsKept)
  }

  /** A string of kept characters loses nothing. */
  lemma RemoveDisallowedKeepsKept(s: string)
    requires forall i :: 0 <= i < |s| ==> IsKept(s[i])
    ensures RemoveDisallowed(s) == s
  {
    Seqs.FilterAll(s, IsKept);
  }

  /**
   * The removal works character by character and keeps the order: a kept
   * character stays, any other vanishes, and a string is the pieces of its
   * parts one after the other.
   */
  lemma RemoveDisallowedPieces(a: string, b: string, c: char)
    ensures RemoveDisallowed(a + b) == RemoveDisallowed(a) + RemoveDisallowed(b)
    ensures RemoveDisallowed([c]) == if IsKept(c) then [c] else []
  {
    Seqs.FilterAppend(a, b, IsKept);
    assert [c][1..] == [];
  }

  /** `replace(/\s+/g, '-')` */
  function SpacesToHyphens(s: string): (r: string)
    ensures forall i :: 0 <= i < |r| ==> !IsSpace(r[i])
    decreases |s|
  {
    if |s| == 0 then []
    else if IsSpace(s[0]) then ['-'] + SpacesToHyphens(DropWhile(s[1..], IsSpace))
    else [s[0]] + SpacesToHyphens(s[1..])
  }

  /** `replace(/--+/g, '-')` */
  function CollapseHyphens(s: string): (r: string)
    ensures NoDoubleHyphen(r)
    ensures |r| > 0 && r[0] == '-' ==> |s| > 0 && s[0] == '-'
    decreases |s|
  {
    if |s| == 0 then []
    else if |s| >= 2 && s[0] == '-' && s[1] == '-' then
      var rest := CollapseHyphens(DropWhile(s[2..], IsHyphen));
      NoDoubleCons('-', rest);
      ['-'] + rest
    else
      var rest := CollapseHyphens(s[1..]);
      NoDoubleCons(s[0], rest);
      [s[0]] + rest
  }

  /** Putting `c` in front of `t` makes no `--` unless both are hyphens. */
  lemma NoDoubleCons(c: char, t: string)
    requires NoDoubleHyphen(t) && !(c == '-' && |t| > 0 && t[0] == '-')
    ensures NoDoubleHyphen([c] + t)
  {
    var s := [c] + t;
    forall i | 0 <= i < |s| - 1
      ensures !DoubleAt(s, i)
    {
      if i > 0 {
        assert !DoubleAt(t, i - 1);
      }
    }
  }

  /** A string without whitespace passes through `replace(/\s+/g, '-')` unchanged. */
  lemma SpacesToHyphensNoSpace(s: string)
    requires NoSpace(s)
    ensures SpacesToHyphens(s) == s
  {
    SpacesToHyphensKeepsBlock(s, []);
    assert s + [] == s;
  }

  /** A string without `--` passes through `replace(/--+/g, '-')` unchanged. */
  lemma CollapseKeepsNoDouble(s: string)
    requires NoDoubleHyphen(s)
    ensures CollapseHyphens(s) == s
  {
    CollapseKeepsBlock(s, []);
    assert s + [] == s;
  }

  /** A block without whitespace passes through `replace(/\s+/g, '-')` unchanged. */
  lemma {:induction false} SpacesToHyphensKeepsBlock(w: string, t: string)
    requires NoSpace(w)
    ensures SpacesToHyphens(w + t) == w + SpacesToHyphens(t)
    decreases |w|
  {
    if |w| == 0 {
      assert w + t == t;
    } else {
      var c, w' := w[0], w[1..];
      assert SpacesToHyphens(w + t) == [c] + SpacesToHyphens(w' + t) by {
        assert w + t == [c] + (w' + t);
        SpacesToHyphensCons(c, w' + t);
      }
      assert SpacesToHyphens(w' + t) == w' + SpacesToHyphens(t) by {
        assert NoSpace(w') by {
          forall i | 0 <= i < |w'| ensures !IsSpace(w'[i]) { assert w'[i] == w[i + 1]; }
        }
        SpacesToHyphensKeepsBlock(w', t);
      }
      assert w == [c] + w';
      Seqs.AppendAssoc([c], w', SpacesToHyphens(t));
    }
  }

  lemma SpacesToHyphensCons(c: char, rest: string)
    requires !IsSpace(c)
    ensures SpacesToHyphens([c] + rest) == [c] + SpacesToHyphens(rest)
  {
    assert ([c] + rest)[1..] == rest;
  }

  /** A whole whitespace run, however long, becomes one `-`. */
  lemma SpacesToHyphensRun(sp: string, t: string)
    requires |sp| >= 1 && forall i :: 0 <= i < |sp| ==> IsSpace(sp[i])
    requires |t| == 0 || !IsSpace(t[0])
    ensures SpacesToHyphens(sp + t) == "-" + SpacesToHyphens(t)
  {
    var s := sp + t;
    assert s[1..] == sp[1..] + t;
    DropSpaceRun(sp[1..], t);
  }

  lemma {:induction false} DropSpaceRun(sp: string, t: string)
    requires forall i :: 0 <= i < |sp| ==> IsSpace(sp[i])
    requires |t| == 0 || !IsSpace(t[0])
    ensures DropWhile(sp + t, IsSpace) == t
    decreases |sp|
  {
    if |sp| == 0 {
      assert sp + t == t;
    } else {
      assert (sp + t)[1..] == sp[1..] + t;
      DropSpaceRun(sp[1..], t);
    }
  }

  /** The last character of `w` is a hyphen and `t` starts with one. */
  predicate Joins(w: string, t: string) {
    |w| > 0 && |t| > 0 && w[|w| - 1] == '-' && t[0] == '-'
  }

  /** A block without `--` passes through `replace(/--+/g, '-')` unchanged when it does not run into more hyphens. */
  lemma {:induction false} CollapseKeepsBlock(w: string, t: string)
    requires NoDoubleHyphen(w) && !Joins(w, t)
    ensures CollapseHyphens(w + t) == w + CollapseHyphens(t)
    decreases |w|
  {
    if |w| == 0 {
      assert w + t == t;
    } else {
      var c, w' := w[0], w[1..];
      var rest := w' + t;
      assert CollapseHyphens(w + t) == [c] + CollapseHyphens(rest) by {
        assert w + t == [c] + rest;
        assert !(c == '-' && |rest| > 0 && rest[0] == '-') by {
          if |w'| > 0 { assert rest[0] == w[1] && !DoubleAt(w, 0); } else if |t| > 0 { assert rest[0] == t[0]; }
        }
        CollapseCons(c, rest);
      }
      assert CollapseHyphens(rest) == w' + CollapseHyphens(t) by {
        assert NoDoubleHyphen(w') by {
          forall i | 0 <= i < |w'| - 1 ensures !DoubleAt(w', i) {
            assert !DoubleAt(w, i + 1);
          }
        }
        assert !Joins(w', t) by {
          if |w'| > 0 { assert w'[|w'| - 1] == w[|w| - 1]; }
        }
        CollapseKeepsBlock(w', t);
      }
      assert w == [c] + w';
      Seqs.AppendAssoc([c], w', CollapseHyphens(t));
    }
  }

  lemma CollapseCons(c: char, rest: string)
    requires !(c == '-' && |rest| > 0 && rest[0] == '-')
    ensures CollapseHyphens([c] + rest) == [c] + CollapseHyphens(rest)
  {
    assert ([c] + rest)[1..] == rest;
  }

  /** A run of two or more hyphens becomes one `-`. */
  lemma CollapseRun(h: string, t: string)
    requires |h| >= 2 && forall i :: 0 <= i < |h| ==> h[i] == '-'
    requires |t| == 0 || t[0] != '-'
    ensures CollapseHyphens(h + t) == "-" + CollapseHyphens(t)
  {
    var s := h + t;
    assert s[0] == '-' && s[1] == '-';
    assert s[2..] == h[2..] + t;
    DropHyphenRun(h[2..], t);
  }

  lemma {:induction false} DropHyphenRun(h: string, t: string)
    requires forall i :: 0 <= i < |h| ==> h[i] == '-'
    requires |t| == 0 || t[0] != '-'
    ensures DropWhile(h + t, IsHyphen) == t
    decreases |h|
  {
    if |h| == 0 {
      assert h + t == t;
    } else {
      assert (h + t)[1..] == h[1..] + t;
      DropHyphenRun(h[1..], t);
    }
  }

  /** Every character of `s` satisfies `p`. */
  ghost predicate All(s: string, p: char -> bool) {
    forall i :: 0 <= i < |s| ==> p(s[i])
  }

  lemma SuffixChars(s: string, k: nat, p: char -> bool)
    requires All(s, p) && k <= |s|
    ensures All(s[k..], p)
  {
    forall i | 0 <= i < |s| - k
      ensures p(s[k..][i])
    {
      assert s[k..][i] == s[k + i];
    }
  }

  /** The steps after lower-casing introduce no character but `-`. */
  lemma {:induction false} SpacesToHyphensChars(s: string, p: char -> bool)
    requires All(s, p) && p('-')
    ensures All(SpacesToHyphens(s), p)
    decreases |s|
  {
    if |s| > 0 {
      if IsSpace(s[0]) {
        var t := DropWhile(s[1..], IsSpace);
        SuffixChars(s[1..], |s[1..]| - |t|, p);
        SpacesToHyphensChars(t, p);
        assert SpacesToHyphens(s) == ['-'] + SpacesToHyphens(t);
      } else {
        SuffixChars(s, 1, p);
        SpacesToHyphensChars(s[1..], p);
        assert SpacesToHyphens(s) == [s[0]] + SpacesToHyphens(s[1..]);
      }
    }
  }

  lemma {:induction false} CollapseHyphensChars(s: string, p: char -> bool)
    requires All(s, p) && p('-')
    ensures All(CollapseHyphens(s), p)
    decreases |s|
  {
    if |s| > 0 {
      if |s| >= 2 && s[0] == '-' && s[1] == '-' {
        var t := DropWhile(s[2..], IsHyphen);
        SuffixChars(s, |s| - |t|, p);
        CollapseHyphensChars(t, p);
        assert CollapseHyphens(s) == ['-'] + CollapseHyphens(t);
      } else {
        SuffixChars(s, 1, p);
        CollapseHyphensChars(s[1..], p);
        assert CollapseHyphens(s) == [s[0]] + CollapseHyphens(s[1..]);
      }
    }
  }

  lemma TrimChars(s: string, p: char -> bool)
    requires All(s, p)
    ensures All(Trim(s), p)
  {
    var t := DropWhile(s, IsSpace);
    assert All(t, p);
  }

  lemma RemoveDisallowedChars(s: string, p: char -> bool)
    requires All(s, p)
    ensures All(RemoveDisallowed(s), p)
  {
    var r := RemoveDisallowed(s);
    forall i | 0 <= i < |r|
      ensures p(r[i])
    {
      assert r[i] in s;
    }
  }

  /** A lower-case kept character is either a slug character or whitespace. */
  predicate SlugOrSpace(c: char) {
    IsSlugChar(c) || IsSpace(c)
  }

  /**
   * `slugify`. The result is made of lower-case ASCII letters, digits, `_` and
   * `-` and never holds `--`.
   */
  function Slugify(s: string): (r: string)
    ensures All(r, IsSlugChar)
    ensures NoDoubleHyphen(r)
  {
    var lowered := ToLower(s);
    var trimmed := Trim(lowered);
    var kept := RemoveDisallowed(trimmed);
    var spaced := SpacesToHyphens(kept);
    var r := CollapseHyphens(spaced);
    KeptSlugOrSpace(lowered);
    HyphenatedSlugChars(kept);
    r
  }

  /** After lower-casing, trimming and filtering, only slug characters and whitespace remain. */
  lemma KeptSlugOrSpace(lowered: string)
    requires forall i :: 0 <= i < |lowered| ==> !IsUpper(lowered[i])
    ensures All(RemoveDisallowed(Trim(lowered)), SlugOrSpace)
  {
    var trimmed := Trim(lowered);
    TrimChars(lowered, c => !IsUpper(c));
    RemoveDisallowedChars(trimmed, c => !IsUpper(c));
  }

  /** Hyphenating and collapsing slug characters and whitespace leaves slug characters only. */
  lemma HyphenatedSlugChars(kept: string)
    requires All(kept, SlugOrSpace)
    ensures All(CollapseHyphens(SpacesToHyphens(kept)), IsSlugChar)
  {
    var spaced := SpacesToHyphens(kept);
    SpacesToHyphensChars(kept, SlugOrSpace);
    assert All(spaced, IsSlugChar);
    CollapseHyphensChars(spaced, IsSlugChar);
  }

  /** Word characters of `s`, in order. */
  function Words(s: string): string {
    Seqs.Filter(s, IsWord)
  }

  /** Leading non-word characters contribute no words. */
  lemma {:induction false} WordsSkipPrefix(s: string, k: nat)
    requires k <= |s| && forall i :: 0 <= i < k ==> !IsWord(s[i])
    ensures Words(s) == Words(s[k..])
  {
    if k > 0 {
      assert s[1..][k - 1..] == s[k..];
      WordsSkipPrefix(s[1..], k - 1);
    }
  }

  /** Trailing non-word characters contribute no words. */
  lemma WordsSkipSuffix(s: string, k: nat)
    requires k <= |s| && forall i :: k <= i < |s| ==> !IsWord(s[i])
    ensures Words(s) == Words(s[..k])
  {
    assert s == s[..k] + s[k..];
    Seqs.FilterAppend(s[..k], s[k..], IsWord);
    Seqs.FilterNone(s[k..], IsWord);
  }

  lemma WordsCons(c: char, s: string)
    ensures Words([c] + s) == (if IsWord(c) then [c] else []) + Words(s)
  {
    assert ([c] + s)[1..] == s;
  }

  lemma DropSpacesWords(s: string)
    ensures Words(DropWhile(s, IsSpace)) == Words(s)
  {
    var t := DropWhile(s, IsSpace);
    var k := |s| - |t|;
    forall i | 0 <= i < k
      ensures !IsWord(s[i])
    {
      assert IsSpace(s[i]);
    }
    WordsSkipPrefix(s, k);
  }

  lemma DropTrailingSpacesWords(t: string)
    ensures Words(DropWhileEnd(t, IsSpace)) == Words(t)
  {
    var r := DropWhileEnd(t, IsSpace);
    forall i | |r| <= i < |t|
      ensures !IsWord(t[i])
    {
      assert IsSpace(t[i]);
    }
    WordsSkipSuffix(t, |r|);
  }

  lemma TrimWords(s: string)
    ensures Words(Trim(s)) == Words(s)
  {
    DropSpacesWords(s);
    DropTrailingSpacesWords(DropWhile(s, IsSpace));
  }

  /** Skipping a run of whitespace loses no words. */
  lemma SpaceRunWords(s: string)
    requires |s| >= 1 && IsSpace(s[0])
    ensures Words(DropWhile(s[1..], IsSpace)) == Words(s)
  {
    var t := DropWhile(s[1..], IsSpace);
    var k := |s| - |t|;
    assert t == s[k..];
    forall i | 0 <= i < k
      ensures !IsWord(s[i])
    {
      if i >= 1 { assert s[i] == s[1..][i - 1]; }
      SpaceFacts(s[i]);
    }
    WordsSkipPrefix(s, k);
  }

  lemma {:induction false} SpacesToHyphensWords(s: string)
    ensures Words(SpacesToHyphens(s)) == Words(s)
    decreases |s|
  {
    if |s| > 0 {
      if IsSpace(s[0]) {
        SpacesToHyphensWords(DropWhile(s[1..], IsSpace));
        SpacesToHyphensWordsRun(s);
      } else {
        SpacesToHyphensWords(s[1..]);
        SpacesToHyphensWordsKeep(s);
      }
    }
  }

  lemma SpacesToHyphensWordsRun(s: string)
    requires |s| > 0 && IsSpace(s[0])
    requires var t := DropWhile(s[1..], IsSpace); Words(SpacesToHyphens(t)) == Words(t)
    ensures Words(SpacesToHyphens(s)) == Words(s)
  {
    var t := DropWhile(s[1..], IsSpace);
    SpacesToHyphensSpace(s);
    WordsCons('-', SpacesToHyphens(t));
    SpaceRunWords(s);
  }

  /** A leading whitespace run becomes one `-`. */
  lemma SpacesToHyphensSpace(s: string)
    requires |s| > 0 && IsSpace(s[0])
    ensures SpacesToHyphens(s) == ['-'] + SpacesToHyphens(DropWhile(s[1..], IsSpace))
  {
  }

  lemma SpacesToHyphensWordsKeep(s: string)
    requires |s| > 0 && !IsSpace(s[0])
    requires Words(SpacesToHyphens(s[1..])) == Words(s[1..])
    ensures Words(SpacesToHyphens(s)) == Words(s)
  {
    var c, rest := s[0], s[1..];
    WordsCons(c, SpacesToHyphens(rest));
    WordsCons(c, rest);
    assert s == [c] + rest;
  }

  /** Skipping a run of hyphens loses no words. */
  lemma HyphenRunWords(s: string)
    requires |s| >= 2 && s[0] == '-' && s[1] == '-'
    ensures Words(DropWhile(s[2..], IsHyphen)) == Words(s)
  {
    var t := DropWhile(s[2..], IsHyphen);
    var k := |s| - |t|;
    assert t == s[k..];
    forall i | 0 <= i < k
      ensures s[i] == '-'
    {
      if i >= 2 { assert IsHyphen(s[2..][i - 2]); }
    }
    WordsSkipPrefix(s, k);
  }

  lemma {:induction false} CollapseHyphensWords(s: string)
    ensures Words(CollapseHyphens(s)) == Words(s)
    decreases |s|
  {
    if |s| > 0 {
      if |s| >= 2 && s[0] == '-' && s[1] == '-' {
        CollapseHyphensWords(DropWhile(s[2..], IsHyphen));
        CollapseHyphensWordsRun(s);
      } else {
        CollapseHyphensWords(s[1..]);
        CollapseHyphensWordsKeep(s);
      }
    }
  }

  lemma CollapseHyphensWordsRun(s: string)
    requires |s| >= 2 && s[0] == '-' && s[1] == '-'
    requires var t := DropWhile(s[2..], IsHyphen); Words(CollapseHyphens(t)) == Words(t)
    ensures Words(CollapseHyphens(s)) == Words(s)
  {
    var t := DropWhile(s[2..], IsHyphen);
    calc {
      Words(CollapseHyphens(s));
      Words(['-'] + CollapseHyphens(t));
      { WordsCons('-', CollapseHyphens(t)); }
      Words(CollapseHyphens(t));
      Words(t);
      { HyphenRunWords(s); }
      Words(s);
    }
  }

  lemma CollapseHyphensWordsKeep(s: string)
    requires |s| > 0 && !(|s| >= 2 && s[0] == '-' && s[1] == '-')
    requires Words(CollapseHyphens(s[1..])) == Words(s[1..])
    ensures Words(CollapseHyphens(s)) == Words(s)
  {
    var c, rest := s[0], s[1..];
    WordsCons(c, CollapseHyphens(rest));
    WordsCons(c, rest);
    assert s == [c] + rest;
  }

  /** The slug keeps every word character of the lower-cased input, in order, and no other. */
  lemma SlugifyKeepsWords(s: string)
    ensures Words(Slugify(s)) == Words(ToLower(s))
  {
    var lowered := ToLower(s);
    var trimmed := Trim(lowered);
    var kept := RemoveDisallowed(trimmed);
    var spaced := SpacesToHyphens(kept);
    TrimWords(lowered);
    Seqs.FilterFilter(trimmed, IsKept, IsWord);
    SpacesToHyphensWords(kept);
    CollapseHyphensWords(spaced);
  }

  /** A slug is left unchanged by every step. */
  lemma SlugFixpoint(s: string)
    requires All(s, IsSlugChar) && NoDoubleHyphen(s)
    ensures Slugify(s) == s
  {
    forall i | 0 <= i < |s|
      ensures IsKept(s[i]) && !IsSpace(s[i])
    {
      SlugCharFacts(s[i]);
    }
    ToLowerKeepsSlug(s);
    assert Trim(s) == s;
    RemoveDisallowedKeepsKept(s);
    SpacesToHyphensNoSpace(s);
    CollapseKeepsNoDouble(s);
  }

  /** A lower-case word character: a slug character other than `-`. */
  predicate IsLowerWord(c: char) {
    'a' <= c <= 'z' || '0' <= c <= '9' || c == '_'
  }

  /** Two lower-case words separated by a space become the words joined by `-`. */
  lemma SlugifyJoinsWords(w1: string, w2: string)
    requires |w1| > 0 && |w2| > 0 && LowerWord(w1) && LowerWord(w2)
    ensures Slugify(w1 + " " + w2) == w1 + "-" + w2
  {
    JoinedLower(w1, w2);
    JoinedTrimmed(w1, w2);
    JoinedKept(w1, w2);
    JoinedHyphens(w1, w2);
    JoinedNoDouble(w1, w2);
    CollapseKeepsNoDouble(w1 + "-" + w2);
    SlugifySteps(w1 + " " + w2, w1 + "-" + w2);
  }

  /** When the first three steps leave `s` alone and the last two turn it into `t`, the slug is `t`. */
  lemma SlugifySteps(s: string, t: string)
    requires ToLower(s) == s && Trim(s) == s && RemoveDisallowed(s) == s
    requires SpacesToHyphens(s) == t && CollapseHyphens(t) == t
    ensures Slugify(s) == t
  {
  }

  lemma JoinedLower(w1: string, w2: string)
    requires LowerWord(w1) && LowerWord(w2)
    ensures ToLower(w1 + " " + w2) == w1 + " " + w2
  {
    ToLowerAppend(w1, " " + w2);
    ToLowerAppend(" ", w2);
    assert ToLower(w1) == w1 by { LowerWordIsSlug(w1); ToLowerKeepsSlug(w1); }
    assert ToLower(w2) == w2 by { LowerWordIsSlug(w2); ToLowerKeepsSlug(w2); }
    assert ToLower(" ") == " " by { assert " "[1..] == []; }
    assert w1 + " " + w2 == w1 + (" " + w2);
  }

  lemma JoinedTrimmed(w1: string, w2: string)
    requires |w1| > 0 && |w2| > 0 && LowerWord(w1) && LowerWord(w2)
    ensures Trim(w1 + " " + w2) == w1 + " " + w2
  {
    var s := w1 + " " + w2;
    assert s[0] == w1[0] && s[|s| - 1] == w2[|w2| - 1];
    LowerWordNotSpace(w1[0]);
    LowerWordNotSpace(w2[|w2| - 1]);
  }

  lemma JoinedKept(w1: string, w2: string)
    requires LowerWord(w1) && LowerWord(w2)
    ensures RemoveDisallowed(w1 + " " + w2) == w1 + " " + w2
  {
    var s := w1 + " " + w2;
    forall i | 0 <= i < |s|
      ensures IsKept(s[i])
    {
      if i < |w1| { assert s[i] == w1[i]; }
      else if i > |w1| { assert s[i] == w2[i - |w1| - 1]; }
    }
    RemoveDisallowedKeepsKept(s);
  }

  lemma JoinedHyphens(w1: string, w2: string)
    requires |w2| > 0 && LowerWord(w1) && LowerWord(w2)
    ensures SpacesToHyphens(w1 + " " + w2) == w1 + "-" + w2
  {
    LowerWordNoSpace(w1);
    LowerWordNoSpace(w2);
    SpacesJoin(w1, w2);
  }

  /** Two blocks without whitespace, separated by a space, are joined by `-`. */
  lemma SpacesJoin(w1: string, w2: string)
    requires |w2| > 0 && NoSpace(w1) && NoSpace(w2)
    ensures SpacesToHyphens(w1 + " " + w2) == w1 + "-" + w2
  {
    Seqs.AppendAssoc(w1, " ", w2);
    Seqs.AppendAssoc(w1, "-", w2);
    SpacesToHyphensKeepsBlock(w1, " " + w2);
    SpacesToHyphensRun(" ", w2);
    SpacesToHyphensNoSpace(w2);
  }

  lemma LowerWordNoSpace(w: string)
    requires LowerWord(w)
    ensures NoSpace(w)
  {
    forall i | 0 <= i < |w|
      ensures !IsSpace(w[i])
    {
      LowerWordNotSpace(w[i]);
    }
  }

  /** Every character of `w` is a lower-case word character. */
  ghost predicate LowerWord(w: string) {
    forall i :: 0 <= i < |w| ==> IsLowerWord(w[i])
  }

  lemma LowerWordIsSlug(w: string)
    requires LowerWord(w)
    ensures All(w, IsSlugChar)
  {
    forall i | 0 <= i < |w|
      ensures IsSlugChar(w[i])
    {
      assert IsLowerWord(w[i]);
    }
  }

  ghost predicate NoSpace(s: string) {
    forall i :: 0 <= i < |s| ==> !IsSpace(s[i])
  }

  lemma LowerWordNotSpace(c: char)
    requires IsLowerWord(c)
    ensures !IsSpace(c)
  {
  }

  lemma JoinedNoDouble(w1: string, w2: string)
    requires LowerWord(w1) && LowerWord(w2)
    ensures NoDoubleHyphen(w1 + "-" + w2)
  {
    var joined := w1 + "-" + w2;
    forall i | 0 <= i < |joined| - 1
      ensures !DoubleAt(joined, i)
    {
      if i < |w1| { assert joined[i] == w1[i]; }
      else { assert joined[i + 1] == w2[i - |w1|]; }
    }
  }

  /** `slugify(slugify(s)) == slugify(s)` */
  lemma SlugifyIdempotent(s: string)
    ensures Slugify(Slugify(s)) == Slugify(s)
  {
    SlugFixpoint(Slugify(s));
  }
}
