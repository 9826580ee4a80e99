/** The text operations the scripts apply with Python's `str` methods and
    the `re` module: `split()`/`join`, `replace`, `in`, `split(sep)[-1]`,
    `lower()`, a decimal digit run and the decimal `float()` grammar. */
module Strings {
  import opened Wrappers
  import opened Sequences

  // ---------------------------------------------------------------- whitespace

  /** The characters for which Python's `str.isspace()` holds: the separators
      of `str.split()` with no argument. */
  predicate IsSpace(c: char) {
    || c == ' '
    || ('\t' <= c <= '\r')
    || ('\U{1C}' <= c <= '\U{1F}')
    || c == '\U{85}' || c == '\U{A0}' || c == '\U{1680}'
    || ('\U{2000}' <= c <= '\U{200A}')
    || c == '\U{2028}' || c == '\U{2029}' || c == '\U{202F}' || c == '\U{205F}' || c == '\U{3000}'
  }

  predicate IsWord(w: string) {
    |w| > 0 && forall i :: 0 <= i < |w| ==> !IsSpace(w[i])
  }

  /** Length of the leading run of non-whitespace characters. */
  function WordLen(s: string): (n: nat)
    ensures n <= |s|
    ensures forall i :: 0 <= i < n ==> !IsSpace(s[i])
    ensures n < |s| ==> IsSpace(s[n])
  {
    if s == [] || IsSpace(s[0]) then 0 else 1 + WordLen(s[1..])
  }

  /** `s.split()`: the maximal runs of non-whitespace characters, in order. */
  function Words(s: string): (ws: seq<string>)
    ensures forall i :: 0 <= i < |ws| ==> IsWord(ws[i])
    decreases |s|
  {
    if s == [] then []
    else if IsSpace(s[0]) then Words(s[1..])
    else
      var n := WordLen(s);
      [s[..n]] + Words(s[n..])
  }

  /** `" ".join(ws)`. */
  function Join(ws: seq<string>): string {
    if ws == [] then ""
    else if |ws| == 1 then ws[0]
    else ws[0] + " " + Join(ws[1..])
  }

  /** `" ".join(s.split())`, which the scraper applies to every extracted text. */
  function NormalizeSpace(s: string): string {
    Join(Words(s))
  }

  /** No leading or trailing whitespace, and every whitespace character is a
      single blank followed by a non-blank. */
  predicate Normalized(r: string) {
    forall i :: 0 <= i < |r| && IsSpace(r[i]) ==> r[i] == ' ' && 0 < i < |r| - 1 && !IsSpace(r[i + 1])
  }

  /** Two normalised, non-empty texts joined by one blank are normalised. */
  lemma NormalizedJoinBlank(a: string, b: string)
    requires Normalized(a) && Normalized(b) && a != [] && b != []
    ensures Normalized(a + " " + b)
  {
    var r := a + " " + b;
    forall i | 0 <= i < |r| && IsSpace(r[i])
      ensures r[i] == ' ' && 0 < i < |r| - 1 && !IsSpace(r[i + 1])
    {
      if i < |a| {
        assert r[i] == a[i];
        if i + 1 < |a| {
          assert r[i + 1] == a[i + 1];
        }
      } else if i == |a| {
        assert r[i + 1] == b[0];
      } else {
        assert r[i] == b[i - |a| - 1];
        assert r[i + 1] == b[i - |a|];
      }
    }
  }

  lemma {:induction false} JoinNormalized(ws: seq<string>)
    requires forall i :: 0 <= i < |ws| ==> IsWord(ws[i])
    ensures Normalized(Join(ws))
    ensures ws != [] ==> |Join(ws)| > 0
  {
    if |ws| > 1 {
      var w, rest := ws[0], Join(ws[1..]);
      JoinNormalized(ws[1..]);
      var r := Join(ws);
      assert r == w + " " + rest;
      assert forall i :: 0 <= i < |w| ==> r[i] == w[i];
      assert forall i :: |w| < i < |r| ==> r[i] == rest[i - |w| - 1];
      forall i | 0 <= i < |r| && IsSpace(r[i])
        ensures r[i] == ' ' && 0 < i < |r| - 1 && !IsSpace(r[i + 1])
      {
        if i == |w| {
          assert r[i + 1] == rest[0];
        } else if i > |w| {
          assert IsSpace(rest[i - |w| - 1]);
          assert r[i + 1] == rest[i - |w|];
        }
      }
    }
  }

  /** The normalised text has no leading, trailing or doubled whitespace. */
  lemma NormalizeSpaceShape(s: string)
    ensures Normalized(NormalizeSpace(s))
  {
    JoinNormalized(Words(s));
  }

  lemma {:induction false} WordLenOfWord(w: string, rest: string)
    requires IsWord(w)
    requires rest == [] || IsSpace(rest[0])
    ensures WordLen(w + rest) == |w|
    decreases |w|
  {
    if |w| > 1 {
      assert (w + rest)[1..] == w[1..] + rest;
      WordLenOfWord(w[1..], rest);
    } else {
      assert (w + rest)[1..] == rest;
    }
  }

  /** Splitting a blank-joined list of words gives the words back. */
  lemma {:induction false} WordsOfJoin(ws: seq<string>)
    requires forall i :: 0 <= i < |ws| ==> IsWord(ws[i])
    ensures Words(Join(ws)) == ws
  {
    if |ws| == 1 {
      WordLenOfWord(ws[0], []);
      assert ws[0] + [] == ws[0];
      assert ws[0][|ws[0]|..] == [];
    } else if |ws| > 1 {
      var w, rest := ws[0], Join(ws[1..]);
      var r := Join(ws);
      assert r == w + (" " + rest);
      WordLenOfWord(w, " " + rest);
      assert r[..|w|] == w;
      assert r[|w|..] == " " + rest;
      assert (" " + rest)[1..] == rest;
      WordsOfJoin(ws[1..]);
    }
  }

  /** Normalising whitespace twice is normalising it once. */
  lemma NormalizeSpaceIdempotent(s: string)
    ensures NormalizeSpace(NormalizeSpace(s)) == NormalizeSpace(s)
  {
    WordsOfJoin(Words(s));
  }

  /** A normalised text is its own normal form. */
  lemma {:induction false} NormalizedFixed(r: string)
    requires Normalized(r)
    ensures NormalizeSpace(r) == r
    decreases |r|
  {
    if r != [] {
      var n := WordLen(r);
      assert n > 0;
      if n == |r| {
        assert r[..n] == r;
        assert Words(r) == [r] + Words([]);
      } else {
        var rest := r[n + 1..];
        assert IsSpace(r[n]) && n < |r| - 1 && !IsSpace(r[n + 1]);
        forall i | 0 <= i < |rest| && IsSpace(rest[i])
          ensures rest[i] == ' ' && 0 < i < |rest| - 1 && !IsSpace(rest[i + 1])
        {
          assert rest[i] == r[n + 1 + i];
        }
        NormalizedFixed(rest);
        assert r[n..][1..] == rest;
        assert Words(r[n..]) == Words(rest);
        assert Words(r) == [r[..n]] + Words(rest);
        assert Words(rest) != [] by {
          assert !IsSpace(rest[0]);
        }
        assert Join(Words(r)) == r[..n] + " " + Join(Words(rest));
        assert r == r[..n] + " " + rest;
      }
    }
  }

  /** The non-whitespace characters of `s`, in order. */
  function NonBlank(s: string): string {
    if s == [] then [] else (if IsSpace(s[0]) then [] else [s[0]]) + NonBlank(s[1..])
  }

  function Concat(ws: seq<string>): string {
    if ws == [] then [] else ws[0] + Concat(ws[1..])
  }

  lemma {:induction false} NonBlankAppend(a: string, b: string)
    ensures NonBlank(a + b) == NonBlank(a) + NonBlank(b)
    decreases |a|
  {
    if a == [] {
      assert a + b == b;
    } else {
      assert (a + b)[1..] == a[1..] + b;
      NonBlankAppend(a[1..], b);
    }
  }

  lemma {:induction false} NonBlankWord(w: string)
    requires forall i :: 0 <= i < |w| ==> !IsSpace(w[i])
    ensures NonBlank(w) == w
    decreases |w|
  {
    if w != [] {
      NonBlankWord(w[1..]);
    }
  }

  lemma {:induction false} NonBlankJoin(ws: seq<string>)
    requires forall i :: 0 <= i < |ws| ==> IsWord(ws[i])
    ensures NonBlank(Join(ws)) == Concat(ws)
  {
    if |ws| == 1 {
      NonBlankWord(ws[0]);
      assert Concat(ws[1..]) == [];
    } else if |ws| > 1 {
      NonBlankJoin(ws[1..]);
      NonBlankWord(ws[0]);
      assert Join(ws) == ws[0] + (" " + Join(ws[1..]));
      NonBlankAppend(ws[0], " " + Join(ws[1..]));
      NonBlankAppend(" ", Join(ws[1..]));
    }
  }

  lemma {:induction false} ConcatWords(s: string)
    ensures Concat(Words(s)) == NonBlank(s)
    decreases |s|
  {
    if s != [] {
      if IsSpace(s[0]) {
        ConcatWords(s[1..]);
      } else {
        var n := WordLen(s);
        ConcatWords(s[n..]);
        assert s == s[..n] + s[n..];
        NonBlankAppend(s[..n], s[n..]);
        NonBlankWord(s[..n]);
        assert Words(s)[1..] == Words(s[n..]);
      }
    }
  }

  /** Normalisation changes only whitespace: the non-blank characters are the
      same, in the same order. */
  lemma NormalizeSpaceKeepsText(s: string)
    ensures NonBlank(NormalizeSpace(s)) == NonBlank(s)
  {
    NonBlankJoin(Words(s));
    ConcatWords(s);
  }

  // ---------------------------------------------------------------- substrings

  /** `p` occurs in `s` starting at position `i`. */
  predicate OccursAt(s: string, p: string, i: nat) {
    i + |p| <= |s| && s[i..i + |p|] == p
  }

  /** Python's `p in s`. */
  predicate Contains(s: string, p: string) {
    exists i :: 0 <= i <= |s| && OccursAt(s, p, i)
  }

  lemma ContainsPrefix(s: string, p: string)
    requires p <= s
    ensures Contains(s, p)
  {
    assert s[0..|p|] == p;
    assert OccursAt(s, p, 0);
  }

  /** An occurrence that does not start `s` lies in its tail, and back. */
  lemma ContainsTail(s: string, p: string)
    requires !(p <= s)
    ensures Contains(s, p) <==> s != [] && Contains(s[1..], p)
  {
    if Contains(s, p) {
      var i :| 0 <= i <= |s| && OccursAt(s, p, i);
      assert s[1..][i - 1..i - 1 + |p|] == s[i..i + |p|];
      assert OccursAt(s[1..], p, i - 1);
    }
    if s != [] && Contains(s[1..], p) {
      var i :| 0 <= i <= |s[1..]| && OccursAt(s[1..], p, i);
      assert s[1..][i..i + |p|] == s[i + 1..i + 1 + |p|];
      assert OccursAt(s, p, i + 1);
    }
  }

  /** `s.replace(p, '')`: occurrences of `p` removed left to right, without overlap. */
  function RemoveAll(s: string, p: string): (r: string)
    ensures |r| <= |s|
    decreases |s|
  {
    if p == [] then s
    else if p <= s then RemoveAll(s[|p|..], p)
    else if s == [] then []
    else [s[0]] + RemoveAll(s[1..], p)
  }

  /** Removing a text that does not occur changes nothing. */
  lemma {:induction false} RemoveAllAbsent(s: string, p: string)
    requires !Contains(s, p)
    ensures RemoveAll(s, p) == s
    decreases |s|
  {
    if p != [] && s != [] {
      if p <= s {
        ContainsPrefix(s, p);
      }
      ContainsTail(s, p);
      RemoveAllAbsent(s[1..], p);
      assert [s[0]] + s[1..] == s;
    }
  }

  /** Removal scans left to right: text before the first occurrence is
      kept as it is, the occurrence goes, and removal goes on after it. */
  lemma RemoveAllAfter(a: string, p: string, b: string)
    requires p != []
    requires forall i :: 0 <= i < |a| ==> !OccursAt(a + p + b, p, i)
    ensures RemoveAll(a + p + b, p) == a + RemoveAll(b, p)
  {
    var s := a + p + b;
    assert OccursAt(s, p, |a|) by {
      assert s[|a|..|a| + |p|] == p;
    }
    RemoveAllFirst(s, p, |a|);
    assert s[..|a|] == a && s[|a| + |p|..] == b;
  }

  /** `p` occurs at index `k` of `s` and at no earlier index. */
  predicate FirstOccurrence(s: string, p: string, k: nat) {
    OccursAt(s, p, k) && forall i :: 0 <= i < k ==> !OccursAt(s, p, i)
  }

  /** Removal keeps the first `k` characters and goes on after the
      occurrence at `k`. */
  predicate KeepsBefore(s: string, p: string, k: nat)
    requires k + |p| <= |s|
  {
    RemoveAll(s, p) == s[..k] + RemoveAll(s[k + |p|..], p)
  }

  /** The same, with the first occurrence at index `k` of `s`. */
  lemma {:induction false} RemoveAllFirst(s: string, p: string, k: nat)
    requires p != [] && FirstOccurrence(s, p, k)
    ensures KeepsBefore(s, p, k)
    decreases k
  {
    if k == 0 {
      RemoveAllMatched(s, p);
    } else {
      NoOccurrenceInTail(s, p, k);
      RemoveAllFirst(s[1..], p, k - 1);
      RemoveAllFirstStep(s, p, k);
    }
  }

  /** Occurrences before `k` in `s` are those before `k - 1` in its tail,
      shifted by one. */
  lemma NoOccurrenceInTail(s: string, p: string, k: nat)
    requires 0 < k && FirstOccurrence(s, p, k)
    ensures FirstOccurrence(s[1..], p, k - 1) && !OccursAt(s, p, 0)
  {
    forall i | 0 <= i < k - 1
      ensures !OccursAt(s[1..], p, i)
    {
      OccursAtTail(s, p, i);
    }
    OccursAtTail(s, p, k - 1);
  }

  lemma RemoveAllMatched(s: string, p: string)
    requires p != [] && OccursAt(s, p, 0)
    ensures KeepsBefore(s, p, 0)
  {
    PrefixOccurs(s, p);
    assert s[..0] == [];
  }

  /** One step of the scan before the first occurrence keeps one character. */
  lemma RemoveAllFirstStep(s: string, p: string, k: nat)
    requires p != [] && !OccursAt(s, p, 0) && 0 < k && k + |p| <= |s|
    requires KeepsBefore(s[1..], p, k - 1)
    ensures KeepsBefore(s, p, k)
  {
    PrefixOccurs(s, p);
    assert s[1..][k - 1 + |p|..] == s[k + |p|..];
    RemoveAllUnmatched(s, p);
    ConsPrefix(s, k, RemoveAll(s[1..], p), RemoveAll(s[k + |p|..], p));
  }

  lemma RemoveAllUnmatched(s: string, p: string)
    requires p != [] && s != [] && !(p <= s)
    ensures RemoveAll(s, p) == [s[0]] + RemoveAll(s[1..], p)
  {
  }

  /** The head of `s` before the first `k - 1` characters of its tail is its
      first `k` characters. */
  lemma ConsPrefix(s: string, k: nat, rt: string, rest: string)
    requires 0 < k <= |s| && rt == s[1..][..k - 1] + rest
    ensures [s[0]] + rt == s[..k] + rest
  {
    assert [s[0]] + s[1..][..k - 1] == s[..k];
  }

  /** A non-empty `a` followed by `x` is its head, then its tail and `x`. */
  lemma HeadThenRest<T>(a: seq<T>, x: seq<T>)
    requires a != []
    ensures a + x == [a[0]] + (a[1..] + x)
  {
    assert [a[0]] + a[1..] == a;
  }

  /** `p` is a prefix of `s` exactly when it occurs at index 0. */
  lemma PrefixOccurs(s: string, p: string)
    ensures p <= s <==> OccursAt(s, p, 0)
  {
  }

  /** An occurrence in the tail of a text is one in the text, a place later. */
  lemma OccursAtTail(s: string, p: string, i: nat)
    requires s != []
    ensures OccursAt(s[1..], p, i) <==> OccursAt(s, p, i + 1)
  {
    if i + |p| <= |s[1..]| {
      assert s[1..][i..i + |p|] == s[i + 1..i + 1 + |p|];
    }
  }

  /** Removing one character: no copy of it remains, every other character is
      kept, in order. */
  lemma {:induction false} RemoveCharSpec(s: string, c: char)
    ensures c !in RemoveAll(s, [c])
    ensures multiset(RemoveAll(s, [c])) == multiset(s)[c := 0]
    ensures IsSubseq(RemoveAll(s, [c]), s)
    decreases |s|
  {
    if s != [] {
      RemoveCharSpec(s[1..], c);
      var r' := RemoveAll(s[1..], [c]);
      assert s == [s[0]] + s[1..];
      if s[0] == c {
        assert [c] <= s;
        SubseqCons(r', s[0], s[1..]);
      } else {
        assert !([c] <= s);
        assert RemoveAll(s, [c]) == [s[0]] + r';
      }
    }
  }

  /** A character that does not occur is not a substring. */
  lemma NotContainsChar(s: string, c: char)
    requires c !in s
    ensures !Contains(s, [c])
  {
    forall i | 0 <= i <= |s| ensures !OccursAt(s, [c], i) {
      if i + 1 <= |s| {
        assert s[i..i + 1][0] == s[i];
      }
    }
  }

  /** Removing `c` from the one-character text `d`. */
  lemma RemoveOneChar(d: char, c: char)
    ensures RemoveAll([d], [c]) == if d == c then [] else [d]
  {
    assert [d][1..] == [];
    if d != c {
      assert [d][0] != c;
    }
  }

  /** Removing a character distributes over concatenation. */
  lemma {:induction false} RemoveCharAppend(a: string, b: string, c: char)
    ensures RemoveAll(a + b, [c]) == RemoveAll(a, [c]) + RemoveAll(b, [c])
    decreases |a|
  {
    if a == [] {
      assert a + b == b;
    } else {
      assert (a + b)[0] == a[0] && (a + b)[1..] == a[1..] + b;
      RemoveCharAppend(a[1..], b, c);
      if a[0] == c {
        assert [c] <= a && [c] <= a + b;
      } else {
        assert !([c] <= a) && !([c] <= a + b);
      }
    }
  }

  /** `.replace('$','').replace(',','')`, which the scraper applies to the
      price it reads and the processing script applies again. */
  function StripPrice(s: string): string {
    RemoveAll(RemoveAll(s, "$"), ",")
  }

  /** The text a price is read from holds neither '$' nor ','; every other
      character is kept, as often as it occurs and in its order. */
  lemma StripPriceSpec(s: string)
    ensures '$' !in StripPrice(s) && ',' !in StripPrice(s)
    ensures multiset(StripPrice(s)) == multiset(s)['$' := 0][',' := 0]
    ensures IsSubseq(StripPrice(s), s)
  {
    var once := RemoveAll(s, "$");
    RemoveCharSpec(s, '$');
    RemoveCharSpec(once, ',');
    SubseqMembers(StripPrice(s), once);
    SubseqTrans(StripPrice(s), once, s);
  }

  /** Stripping a text that was already stripped changes nothing. */
  lemma StripPriceIdempotent(s: string)
    ensures StripPrice(StripPrice(s)) == StripPrice(s)
  {
    var t := StripPrice(s);
    StripPriceSpec(s);
    NotContainsChar(t, '$');
    RemoveAllAbsent(t, "$");
    NotContainsChar(t, ',');
    RemoveAllAbsent(t, ",");
  }

  /** `sep` ends just before position `n` of `s`. */
  predicate SepBefore(s: string, sep: string, n: nat) {
    |sep| <= n <= |s| && s[n - |sep|..n] == sep
  }

  /** The scan behind `s.split(sep)`: from position `i`, an occurrence of `sep`
      is taken whole and the scan resumes after it, otherwise it moves one
      character on. The result is the position just after the last occurrence
      taken, `last` when none is taken from `i` on. */
  function SplitEnd(s: string, sep: string, i: nat, last: nat): (e: nat)
    requires sep != [] && last <= i <= |s|
    ensures last <= e <= |s|
    ensures e == last || SepBefore(s, sep, e)
    ensures (forall j :: last <= j < i ==> !OccursAt(s, sep, j)) ==>
              forall j :: e <= j <= |s| ==> !OccursAt(s, sep, j)
    decreases |s| - i
  {
    if OccursAt(s, sep, i) then SplitEnd(s, sep, i + |sep|, i + |sep|)
    else if i < |s| then SplitEnd(s, sep, i + 1, last)
    else last
  }

  /** Python's `s.split(sep)[-1]`: what follows the last occurrence of `sep`. */
  function LastPiece(s: string, sep: string): (r: string)
    requires sep != []
    ensures |r| <= |s| && r == s[|s| - |r|..]
  {
    s[SplitEnd(s, sep, 0, 0)..]
  }

  /** The last piece holds no `sep`; it is preceded by `sep` when `sep`
      occurs at all, and it is all of `s` when `sep` does not occur. */
  lemma LastPieceSpec(s: string, sep: string)
    requires sep != []
    ensures !Contains(LastPiece(s, sep), sep)
    ensures Contains(s, sep) ==> SepBefore(s, sep, |s| - |LastPiece(s, sep)|)
    ensures !Contains(s, sep) ==> LastPiece(s, sep) == s
  {
    var e := SplitEnd(s, sep, 0, 0);
    var r := s[e..];
    forall j | 0 <= j <= |r| ensures !OccursAt(r, sep, j) {
      assert !OccursAt(s, sep, e + j);
      if j + |sep| <= |r| {
        assert r[j..j + |sep|] == s[e + j..e + j + |sep|];
      }
    }
    if e > 0 {
      assert OccursAt(s, sep, e - |sep|);
    }
  }

  /** `s.split(c)[0]`: everything before the first `c`. */
  function FirstPiece(s: string, c: char): (r: string)
    ensures c !in r && r <= s
    ensures |r| < |s| ==> s[|r|] == c
    ensures c !in s ==> r == s
  {
    if s == [] || s[0] == c then [] else [s[0]] + FirstPiece(s[1..], c)
  }

  /** The first piece of a text is what precedes the first `c`. */
  lemma {:induction false} FirstPieceAt(a: string, c: char, b: string)
    requires c !in a
    ensures FirstPiece(a + [c] + b, c) == a
    decreases |a|
  {
    if a != [] {
      assert (a + [c] + b)[1..] == a[1..] + [c] + b;
      FirstPieceAt(a[1..], c, b);
    }
  }

  // ---------------------------------------------------------------- case

  function LowerChar(c: char): char {
    if 'A' <= c <= 'Z' then (c as int + 32) as char else c
  }

  /** `s.lower()` over the ASCII letters. */
  function Lower(s: string): (r: string)
    ensures |r| == |s|
    ensures forall i :: 0 <= i < |s| ==> r[i] == LowerChar(s[i])
  {
    seq(|s|, i requires 0 <= i < |s| => LowerChar(s[i]))
  }

  /** Lower-casing leaves no upper-case letter and changes nothing on a second pass. */
  lemma LowerSpec(s: string)
    ensures forall i :: 0 <= i < |s| ==> !('A' <= Lower(s)[i] <= 'Z')
    ensures Lower(Lower(s)) == Lower(s)
    ensures forall i :: 0 <= i < |s| ==> (Lower(s)[i] == s[i] <==> !('A' <= s[i] <= 'Z'))
  {
  }

  // ---------------------------------------------------------------- digits

  predicate IsDigit(c: char) {
    '0' <= c <= '9'
  }

  predicate AllDigits(s: string) {
    forall i :: 0 <= i < |s| ==> IsDigit(s[i])
  }

  function DigitValue(c: char): nat
    requires IsDigit(c)
  {
    c as int - '0' as int
  }

  function DigitChar(d: nat): (c: char)
    requires d < 10
    ensures IsDigit(c) && DigitValue(c) == d
  {
    ('0' as int + d) as char
  }

  /** The number a string of decimal digits denotes (`""` denotes 0). */
  function DigitsValue(s: string): nat
    requires AllDigits(s)
  {
    if s == [] then 0 else DigitsValue(s[..|s| - 1]) * 10 + DigitValue(s[|s| - 1])
  }

  function Pow10(n: nat): (p: nat)
    ensures p > 0
  {
    if n == 0 then 1 else 10 * Pow10(n - 1)
  }

  /** Digits written after digits shift them left: `int(a + b)`. */
  lemma {:induction false} DigitsValueAppend(a: string, b: string)
    requires AllDigits(a) && AllDigits(b)
    ensures AllDigits(a + b)
    ensures DigitsValue(a + b) == DigitsValue(a) * Pow10(|b|) + DigitsValue(b)
    decreases |b|
  {
    var ab := a + b;
    AllDigitsAppend(a, b);
    if b == [] {
      assert ab == a;
    } else {
      var b' := b[..|b| - 1];
      var d := DigitValue(b[|b| - 1]);
      assert ab[..|ab| - 1] == a + b' && ab[|ab| - 1] == b[|b| - 1];
      DigitsValueAppend(a, b');
      var va, vb', p := DigitsValue(a), DigitsValue(b'), Pow10(|b'|);
      assert DigitsValue(ab) == (va * p + vb') * 10 + d;
      assert DigitsValue(b) == vb' * 10 + d;
      assert Pow10(|b|) == p * 10;
      ShiftDecimal(va, p, vb', d);
    }
  }

  lemma AllDigitsAppend(a: string, b: string)
    requires AllDigits(a) && AllDigits(b)
    ensures AllDigits(a + b)
  {
    var ab := a + b;
    forall i | 0 <= i < |ab| ensures IsDigit(ab[i]) {
      if i >= |a| { assert ab[i] == b[i - |a|]; }
    }
  }

  lemma ShiftDecimal(a: int, p: int, b: int, d: int)
    ensures (a * p + b) * 10 + d == a * (p * 10) + (b * 10 + d)
  {
    assert (a * p) * 10 == a * (p * 10);
  }

  /** `str(n)` and `'%s' % n`: decimal digits without padding. */
  function NatToString(n: nat): (r: string)
    ensures |r| > 0 && AllDigits(r)
    ensures r[0] == '0' ==> n == 0
    ensures DigitsValue(r) == n
  {
    if n < 10 then [DigitChar(n)]
    else
      var r := NatToString(n / 10) + [DigitChar(n % 10)];
      assert r[..|r| - 1] == NatToString(n / 10);
      r
  }

  /** `'%0wd' % n` for a number of at most `w` digits (`%d`, `%m`, `%Y` of strftime). */
  function PadDigits(n: nat, w: nat): (r: string)
    requires n < Pow10(w)
    ensures |r| == w && AllDigits(r)
    ensures DigitsValue(r) == n
  {
    if w == 0 then []
    else
      var r := PadDigits(n / 10, w - 1) + [DigitChar(n % 10)];
      assert r[..|r| - 1] == PadDigits(n / 10, w - 1);
      r
  }

  /** Length of the leading run of decimal digits. */
  function DigitRunLen(s: string): (n: nat)
    ensures n <= |s| && AllDigits(s[..n])
    ensures n < |s| ==> !IsDigit(s[n])
  {
    if s == [] || !IsDigit(s[0]) then 0
    else
      var n := 1 + DigitRunLen(s[1..]);
      assert s[..n] == [s[0]] + s[1..][..n - 1];
      n
  }

  /** Position of the first decimal digit, `|s|` when there is none. */
  function FirstDigitAt(s: string): (k: nat)
    ensures k <= |s|
    ensures forall i :: 0 <= i < k ==> !IsDigit(s[i])
    ensures k < |s| ==> IsDigit(s[k])
  {
    if s == [] || IsDigit(s[0]) then 0 else 1 + FirstDigitAt(s[1..])
  }

  /** `re.search(r'(\d+)', s).group(1)`, or None when there is no match: the
      leftmost maximal run of decimal digits. */
  function FirstDigitRun(s: string): (r: Option<string>)
    ensures r.None? <==> forall i :: 0 <= i < |s| ==> !IsDigit(s[i])
    ensures r.Some? ==> |r.value| > 0 && AllDigits(r.value)
    ensures r.Some? ==> var k := FirstDigitAt(s);
      && k + |r.value| <= |s| && s[k..k + |r.value|] == r.value
      && (k + |r.value| == |s| || !IsDigit(s[k + |r.value|]))
  {
    var k := FirstDigitAt(s);
    if k == |s| then None
    else
      var n := DigitRunLen(s[k..]);
      assert s[k..][..n] == s[k..k + n];
      Some(s[k..k + n])
  }

  /** A text that starts with a run of digits finds that run first. */
  lemma LeadingDigitRun(d: string, rest: string)
    requires d != [] && AllDigits(d)
    requires rest == [] || !IsDigit(rest[0])
    ensures FirstDigitRun(d + rest) == Some(d)
  {
    var s := d + rest;
    assert FirstDigitAt(s) == 0;
    assert s[0..] == s;
    assert s[..|d|] == d;
    var n := DigitRunLen(s);
    assert s[0..n] == s[..n];
  }

  /** Digits are found past a prefix that holds none. */
  lemma {:induction false} FirstDigitPast(p: string, s: string)
    requires forall i :: 0 <= i < |p| ==> !IsDigit(p[i])
    requires s != [] && IsDigit(s[0])
    ensures FirstDigitAt(p + s) == |p|
    decreases |p|
  {
    if p == [] {
      assert p + s == s;
    } else {
      assert (p + s)[0] == p[0] && (p + s)[1..] == p[1..] + s;
      FirstDigitPast(p[1..], s);
    }
  }

  /** `re.search(r'(\d+)', ...)` finds the first run of digits wherever it
      stands: "Spots: 2" finds "2". */
  lemma FirstDigitRunAfter(p: string, d: string, rest: string)
    requires forall i :: 0 <= i < |p| ==> !IsDigit(p[i])
    requires d != [] && AllDigits(d)
    requires rest == [] || !IsDigit(rest[0])
    ensures FirstDigitRun(p + d + rest) == Some(d)
  {
    var s := p + d + rest;
    assert s == p + (d + rest);
    FirstDigitPast(p, d + rest);
    assert s[|p|..] == d + rest;
    DigitRunOf(d, rest);
    assert s[|p|..|p| + |d|] == d;
  }

  // ---------------------------------------------------------------- numbers

  /** Digits with an optional fractional part, at least one digit in all. */
  function ParseUnsigned(s: string): Option<real> {
    var n := DigitRunLen(s);
    if n == |s| then
      if n == 0 then None else Some(DigitsValue(s) as real)
    else if s[n] != '.' || !AllDigits(s[n + 1..]) || (n == 0 && n + 1 == |s|) then None
    else Some(DigitsValue(s[..n]) as real + DigitsValue(s[n + 1..]) as real / Pow10(|s| - n - 1) as real)
  }

  /** Python's `float(s)` restricted to plain decimal notation: an optional
      sign, digits, an optional fraction. */
  function ParseDecimal(s: string): (r: Option<real>)
    ensures r.Some? ==> exists i :: 0 <= i < |s| && IsDigit(s[i])
    ensures r.Some? ==> forall i :: 0 <= i < |s| ==> IsDigit(s[i]) || s[i] in "+-."
  {
    if s != [] && (s[0] == '+' || s[0] == '-') then
      match ParseUnsigned(s[1..])
      case None => None
      case Some(v) =>
        assert s[1..][0] == s[1];
        Some(if s[0] == '-' then -v else v)
    else ParseUnsigned(s)
  }

  /** `s` is written sign, digits, point, digits: the sign empty, "+" or "-";
      the point empty or "."; digits after the point only when there is one;
      at least one digit in all. These are the plain decimal texts Python's
      `float()` reads. */
  predicate DecimalParts(s: string, sign: string, a: string, point: string, b: string) {
    && s == sign + a + point + b
    && (sign == "" || sign == "+" || sign == "-")
    && (point == "" || point == ".")
    && AllDigits(a) && AllDigits(b)
    && (point == "" ==> b == "")
    && |a| + |b| > 0
  }

  /** The number the text sign a "." b denotes. */
  function DecimalValue(sign: string, a: string, b: string): real
    requires AllDigits(a) && AllDigits(b)
  {
    var m := DigitsValue(a) as real + DigitsValue(b) as real / Pow10(|b|) as real;
    if sign == "-" then -m else m
  }

  /** The leading digit run of digits followed by a non-digit is those digits. */
  lemma {:induction false} DigitRunOf(d: string, rest: string)
    requires AllDigits(d)
    requires rest == [] || !IsDigit(rest[0])
    ensures DigitRunLen(d + rest) == |d|
    decreases |d|
  {
    if d == [] {
      assert d + rest == rest;
    } else {
      assert (d + rest)[0] == d[0] && (d + rest)[1..] == d[1..] + rest;
      DigitRunOf(d[1..], rest);
    }
  }

  lemma ParseUnsignedParts(a: string, point: string, b: string)
    requires DecimalParts(a + point + b, "", a, point, b)
    ensures ParseUnsigned(a + point + b) == Some(DecimalValue("", a, b))
  {
    var u := a + point + b;
    assert u == a + (point + b);
    DigitRunOf(a, point + b);
    if point == "" {
      assert u == a;
    } else {
      assert u[|a|] == '.';
      assert u[..|a|] == a;
      assert u[|a| + 1..] == b;
    }
  }

  /** A decimal text parses, to the number it denotes. */
  lemma ParseDecimalOfParts(s: string, sign: string, a: string, point: string, b: string)
    requires DecimalParts(s, sign, a, point, b)
    ensures ParseDecimal(s) == Some(DecimalValue(sign, a, b))
  {
    var u := a + point + b;
    assert DecimalParts(u, "", a, point, b);
    ParseUnsignedParts(a, point, b);
    if sign == "" {
      assert s == u;
      if |a| > 0 {
        assert s[0] == a[0];
      } else {
        assert s[0] == '.';
      }
      ParseDecimalUnsigned(s);
    } else {
      assert s[0] == sign[0];
      assert s[1..] == u;
      ParseDecimalSigned(s);
    }
  }

  lemma ParseDecimalUnsigned(s: string)
    requires s == [] || (s[0] != '+' && s[0] != '-')
    ensures ParseDecimal(s) == ParseUnsigned(s)
  {
  }

  lemma ParseDecimalSigned(s: string)
    requires s != [] && (s[0] == '+' || s[0] == '-') && ParseUnsigned(s[1..]).Some?
    ensures ParseDecimal(s) == Some(if s[0] == '-' then -ParseUnsigned(s[1..]).value
                                    else ParseUnsigned(s[1..]).value)
  {
  }

  /** The pieces of an unsigned text that parses. */
  lemma UnsignedParts(u: string) returns (a: string, point: string, b: string)
    requires ParseUnsigned(u).Some?
    ensures DecimalParts(u, "", a, point, b)
  {
    var n := DigitRunLen(u);
    if n == |u| {
      a, point, b := u, "", "";
      assert u[..n] == u;
    } else {
      a, point, b := u[..n], ".", u[n + 1..];
      assert u == a + point + b;
    }
  }

  /** A sign before an unsigned decimal text gives a decimal text. */
  lemma SignedParts(s: string, a: string, point: string, b: string)
    requires s != [] && (s[0] == '+' || s[0] == '-')
    requires DecimalParts(s[1..], "", a, point, b)
    ensures DecimalParts(s, [s[0]], a, point, b)
  {
    assert s == [s[0]] + s[1..];
  }

  /** Only decimal texts parse. */
  lemma ParseDecimalParts(s: string)
    requires ParseDecimal(s).Some?
    ensures exists sign, a, point, b :: DecimalParts(s, sign, a, point, b)
  {
    if s != [] && (s[0] == '+' || s[0] == '-') {
      assert ParseUnsigned(s[1..]).Some?;
      var a, point, b := UnsignedParts(s[1..]);
      SignedParts(s, a, point, b);
    } else {
      var a, point, b := UnsignedParts(s);
      assert DecimalParts(s, "", a, point, b);
    }
  }

  /** `float()` on plain decimal notation: a text parses exactly when it is a
      decimal text, and then to the number it denotes. */
  lemma ParseDecimalSpec(s: string)
    ensures ParseDecimal(s).Some? <==> exists sign, a, point, b :: DecimalParts(s, sign, a, point, b)
    ensures forall sign, a, point, b :: DecimalParts(s, sign, a, point, b) ==>
              ParseDecimal(s) == Some(DecimalValue(sign, a, b))
  {
    forall sign, a, point, b | DecimalParts(s, sign, a, point, b)
      ensures ParseDecimal(s) == Some(DecimalValue(sign, a, b))
    {
      ParseDecimalOfParts(s, sign, a, point, b);
    }
    if ParseDecimal(s).Some? {
      ParseDecimalParts(s);
    }
  }

  /** A run of digits reads as the number it denotes. */
  lemma ParseDecimalDigits(s: string)
    requires s != [] && AllDigits(s)
    ensures ParseDecimal(s) == Some(DigitsValue(s) as real)
  {
    assert DigitRunLen(s) == |s|;
  }

  /** `float(str(n)) == n`. */
  lemma ParseDecimalOfNat(n: nat)
    ensures ParseDecimal(NatToString(n)) == Some(n as real)
  {
    ParseDecimalDigits(NatToString(n));
  }
}
