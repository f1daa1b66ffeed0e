/** The JavaScript string operations the notebook generator is built from,
    stated over `string` (= `seq<char>`). */
module Text {

  datatype Option<T> = None | Some(value: T)

  /** Concatenation of a sequence of chunks, as a stream that receives them
      one `write` at a time ends up holding them. */
  function Concat(chunks: seq<string>): string
  {
    if chunks == [] then "" else chunks[0] + Concat(chunks[1..])
  }

  lemma {:induction false} ConcatAppend(a: seq<string>, b: seq<string>)
    ensures Concat(a + b) == Concat(a) + Concat(b)
  {
    if a == [] {
      assert a + b == b;
    } else {
      assert (a + b)[1..] == a[1..] + b;
      ConcatAppend(a[1..], b);
    }
  }

  /** `s.startsWith(p)` */
  predicate StartsWith(s: string, p: string)
  {
    |p| <= |s| && s[..|p|] == p
  }

  /** `s.endsWith(p)` */
  predicate EndsWith(s: string, p: string)
  {
    |p| <= |s| && s[|s| - |p|..] == p
  }

  /** `s.replace(/c/g, rep)` for a one-character pattern: every `c`, left to
      right, becomes `rep`; what `rep` introduces is not scanned again. (A `$`
      in these fixed replacement texts is only ever followed by the end of the
      text, where ECMAScript's substitution rules keep it literal.) */
  function ReplaceAll(s: string, c: char, rep: string): string
  {
    if s == [] then []
    else (if s[0] == c then rep else [s[0]]) + ReplaceAll(s[1..], c, rep)
  }

  lemma {:induction false} ReplaceAllConcat(a: string, b: string, c: char, rep: string)
    ensures ReplaceAll(a + b, c, rep) == ReplaceAll(a, c, rep) + ReplaceAll(b, c, rep)
  {
    if a == [] {
      assert a + b == b;
    } else {
      assert (a + b)[0] == a[0];
      assert (a + b)[1..] == a[1..] + b;
      ReplaceAllConcat(a[1..], b, c, rep);
    }
  }

  /** A global replacement on a one-character text. */
  lemma ReplaceAllSingle(x: char, c: char, rep: string)
    ensures ReplaceAll([x], c, rep) == if x == c then rep else [x]
  {
    assert [x][1..] == [];
  }

  /** A global replacement leaves a text without the pattern character as it is. */
  lemma {:induction false} ReplaceAllAbsent(s: string, c: char, rep: string)
    requires c !in s
    ensures ReplaceAll(s, c, rep) == s
  {
    if s != [] {
      assert s == [s[0]] + s[1..];
      ReplaceAllAbsent(s[1..], c, rep);
    }
  }

  /** A pass over `p + [c] + q`, where `c` occurs only in the middle. */
  lemma ReplaceOnce(p: string, c: char, q: string, rep: string)
    requires c !in p && c !in q
    ensures ReplaceAll(p + [c] + q, c, rep) == p + rep + q
  {
    ReplaceAllConcat(p + [c], q, c, rep);
    ReplaceAllConcat(p, [c], c, rep);
    ReplaceAllSingle(c, c, rep);
    ReplaceAllAbsent(p, c, rep);
    ReplaceAllAbsent(q, c, rep);
  }

  /** A global replacement brings in no character absent from both the text
      and the replacement. */
  lemma {:induction false} ReplaceAllKeepsOut(s: string, c: char, rep: string, x: char)
    requires x !in s && x !in rep
    ensures x !in ReplaceAll(s, c, rep)
  {
    if s != [] {
      ReplaceAllKeepsOut(s[1..], c, rep, x);
    }
  }

  /** Replacing a character by one character works position by position. */
  lemma {:induction false} ReplaceAllCharwise(s: string, c: char, x: char)
    ensures |ReplaceAll(s, c, [x])| == |s|
    ensures forall i :: 0 <= i < |s| ==> ReplaceAll(s, c, [x])[i] == if s[i] == c then x else s[i]
  {
    if s != [] {
      ReplaceAllCharwise(s[1..], c, x);
      var r := ReplaceAll(s, c, [x]);
      assert r == [if s[0] == c then x else s[0]] + ReplaceAll(s[1..], c, [x]);
      forall i | 1 <= i < |s|
        ensures r[i] == if s[i] == c then x else s[i]
      {
        assert s[i] == s[1..][i - 1];
      }
    }
  }

  /** `pat` occurs in `s` starting at index `j`. */
  predicate OccursAt(s: string, pat: string, j: nat)
  {
    j + |pat| <= |s| && s[j..j + |pat|] == pat
  }

  /** The first index at or after `k` where `pat` occurs (ECMAScript's StringIndexOf). */
  function IndexFrom(s: string, pat: string, k: nat): (r: Option<nat>)
    ensures r.Some? ==> k <= r.value && OccursAt(s, pat, r.value)
    ensures r.Some? ==> forall j :: k <= j < r.value ==> !OccursAt(s, pat, j)
    ensures r.None? ==> forall j :: k <= j ==> !OccursAt(s, pat, j)
    decreases |s| - k
  {
    if k + |pat| > |s| then None
    else if s[k..k + |pat|] == pat then Some(k)
    else IndexFrom(s, pat, k + 1)
  }

  /** `s.indexOf(pat)`, with `None` for -1. */
  function IndexOf(s: string, pat: string): Option<nat>
  {
    IndexFrom(s, pat, 0)
  }

  /** ECMAScript's GetSubstitution for a match without capture groups: in the
      replacement text `$$` stands for `$`, `$&` for the matched text, `` $` ``
      for the text before the match and `$'` for the text after it; any other
      `$` (including `$1`..`$99` and `$<`, which need groups) stays literal. */
  function Substitution(rep: string, matched: string, before: string, after: string): string
    decreases |rep|
  {
    if rep == [] then []
    else if rep[0] == '$' && |rep| >= 2 && rep[1] == '$' then "$" + Substitution(rep[2..], matched, before, after)
    else if rep[0] == '$' && |rep| >= 2 && rep[1] == '&' then matched + Substitution(rep[2..], matched, before, after)
    else if rep[0] == '$' && |rep| >= 2 && rep[1] == '`' then before + Substitution(rep[2..], matched, before, after)
    else if rep[0] == '$' && |rep| >= 2 && rep[1] == '\'' then after + Substitution(rep[2..], matched, before, after)
    else [rep[0]] + Substitution(rep[1..], matched, before, after)
  }

  /** A replacement text without `$` is inserted literally. */
  lemma {:induction false} SubstitutionPlain(rep: string, matched: string, before: string, after: string)
    requires '$' !in rep
    ensures Substitution(rep, matched, before, after) == rep
  {
    if rep != [] {
      assert rep == [rep[0]] + rep[1..];
      SubstitutionPlain(rep[1..], matched, before, after);
    }
  }

  /** `$&` inserts the matched text. */
  lemma SubstitutionMatched(matched: string, before: string, after: string)
    ensures Substitution("$&", matched, before, after) == matched
  {
    var rep := "$&";
    assert rep[2..] == [];
    assert Substitution(rep[2..], matched, before, after) == [];
  }

  /** `s.replace(pat, rep)` with a string pattern: only the FIRST occurrence of
      `pat` is replaced; with no occurrence the text is returned unchanged. */
  function ReplaceFirst(s: string, pat: string, rep: string): string
  {
    match IndexOf(s, pat)
    case None => s
    case Some(i) => s[..i] + Substitution(rep, pat, s[..i], s[i + |pat|..]) + s[i + |pat|..]
  }

  /** Where `pat` first occurs at `i`, that occurrence is exchanged for the
      substituted replacement text. */
  lemma ReplaceFirstAt(s: string, pat: string, rep: string, i: nat)
    requires OccursAt(s, pat, i) && forall j :: 0 <= j < i ==> !OccursAt(s, pat, j)
    ensures ReplaceFirst(s, pat, rep) == s[..i] + Substitution(rep, pat, s[..i], s[i + |pat|..]) + s[i + |pat|..]
  {
    assert IndexOf(s, pat) == Some(i);
  }

  /** For a `$`-free replacement, exactly the text of the first occurrence is
      exchanged for `rep`. */
  lemma ReplaceFirstSpec(s: string, pat: string, rep: string, i: nat)
    requires '$' !in rep
    requires OccursAt(s, pat, i) && forall j :: 0 <= j < i ==> !OccursAt(s, pat, j)
    ensures ReplaceFirst(s, pat, rep) == s[..i] + rep + s[i + |pat|..]
  {
    ReplaceFirstAt(s, pat, rep, i);
    SubstitutionPlain(rep, pat, s[..i], s[i + |pat|..]);
  }

  lemma ReplaceFirstAbsent(s: string, pat: string, rep: string)
    requires forall j :: 0 <= j ==> !OccursAt(s, pat, j)
    ensures ReplaceFirst(s, pat, rep) == s
  {
  }

  /** `s.split(c)[0]`: the text before the first `c`, or all of `s` without one. */
  function Before(s: string, c: char): (r: string)
    ensures |r| <= |s| && r == s[..|r|]
    ensures c !in r
    ensures |r| < |s| ==> s[|r|] == c
  {
    if s == [] then []
    else if s[0] == c then []
    else [s[0]] + Before(s[1..], c)
  }

  /** The index of the last `c` in `s`, if any. */
  function LastIndexOf(s: string, c: char): (r: Option<nat>)
    ensures r.Some? ==> r.value < |s| && s[r.value] == c && c !in s[r.value + 1..]
    ensures r.None? ==> c !in s
  {
    if s == [] then None
    else if s[|s| - 1] == c then Some(|s| - 1)
    else LastIndexOf(s[..|s| - 1], c)
  }
}
