/**
 Placeholder templates filled by successive `str::replace` calls, the way
 both message builders fill their bodies. A template is a list of literal
 pieces with one slot between each neighbouring pair; `Fill` puts a list
 of strings into the slots. The lemmas say when replacing the slots one by
 one, left to right, puts each argument into its own slot verbatim.
 */
module Templates {
  import opened Strings

  /** `ps[0] + xs[0] + ps[1] + xs[1] + ... + ps[n]`. */
  function Fill(ps: seq<string>, xs: seq<string>): string
    requires |ps| == |xs| + 1
    decreases |xs|
  {
    if |xs| == 0 then ps[0] else ps[0] + xs[0] + Fill(ps[1..], xs[1..])
  }

  /**
   The literal pieces hold no occurrence of `pat`, and every character
   that meets a slot is foreign to `pat`, so no occurrence can form across
   a seam whatever the slot holds.
   */
  predicate Guarded(ps: seq<string>, pat: string)
  {
    forall i | 0 <= i < |ps| ::
      && !Contains(ps[i], pat)
      && (i < |ps| - 1 ==> |ps[i]| > 0 && ps[i][|ps[i]| - 1] !in pat)
      && (i > 0 ==> |ps[i]| > 0 && ps[i][0] !in pat)
  }

  /** Applies `Replace(_, pats[i], reps[i])` for i = k, k+1, ..., m-1, in that order. */
  function ReplaceSpan(s: string, pats: seq<string>, reps: seq<string>, k: nat, m: nat): string
    requires |pats| == |reps| && k <= m <= |pats|
    requires forall i | 0 <= i < |pats| :: |pats[i]| > 0
    decreases m - k
  {
    if k == m then s else ReplaceSpan(Replace(s, pats[k], reps[k]), pats, reps, k + 1, m)
  }

  lemma {:induction false} FillSplit(ps: seq<string>, xs: seq<string>, k: nat)
    requires |ps| == |xs| + 1 && k < |xs|
    ensures Fill(ps, xs) == Fill(ps[..k + 1], xs[..k]) + xs[k] + Fill(ps[k + 1..], xs[k + 1..])
    decreases k
  {
    if k > 0 {
      FillSplit(ps[1..], xs[1..], k - 1);
      assert ps[1..][..k] == ps[1..k + 1] == ps[..k + 1][1..];
      assert xs[1..][..k - 1] == xs[1..k] == xs[..k][1..];
      assert ps[1..][k..] == ps[k + 1..];
      assert xs[1..][k..] == xs[k + 1..];
    }
  }

  /** A fill starts with the first piece's first character and ends with the last piece's last one. */
  lemma {:induction false} FillEdges(ps: seq<string>, xs: seq<string>)
    requires |ps| == |xs| + 1
    ensures |ps[0]| > 0 ==> |Fill(ps, xs)| > 0 && Fill(ps, xs)[0] == ps[0][0]
    ensures |ps[|ps| - 1]| > 0 ==>
      |Fill(ps, xs)| > 0 && Fill(ps, xs)[|Fill(ps, xs)| - 1] == ps[|ps| - 1][|ps[|ps| - 1]| - 1]
    decreases |xs|
  {
    if |xs| > 0 {
      FillEdges(ps[1..], xs[1..]);
    }
  }

  /** Guarded pieces with pattern-free slot contents give a pattern-free fill. */
  lemma {:induction false} FillAbsent(ps: seq<string>, xs: seq<string>, pat: string)
    requires |ps| == |xs| + 1 && Guarded(ps, pat)
    requires forall j | 0 <= j < |xs| :: !Contains(xs[j], pat)
    ensures !Contains(Fill(ps, xs), pat)
    decreases |xs|
  {
    assert !Contains(ps[0], pat);
    if |xs| > 0 {
      assert |ps[0]| > 0 && ps[0][|ps[0]| - 1] !in pat;
      assert !Contains(xs[0], pat);
      AbsentInConcat(ps[0], xs[0], pat);
      assert Guarded(ps[1..], pat) by {
        forall i | 0 <= i < |ps[1..]|
          ensures ps[1..][i] == ps[i + 1]
        {
        }
      }
      FillAbsent(ps[1..], xs[1..], pat);
      FillEdges(ps[1..], xs[1..]);
      assert |ps[1]| > 0 && ps[1][0] !in pat;
      assert ps[0] + xs[0] + Fill(ps[1..], xs[1..]) == (ps[0] + xs[0]) + Fill(ps[1..], xs[1..]);
      AbsentInConcat(ps[0] + xs[0], Fill(ps[1..], xs[1..]), pat);
    }
  }

  lemma GuardedSlices(ps: seq<string>, pat: string, k: nat)
    requires Guarded(ps, pat) && k < |ps|
    ensures Guarded(ps[..k + 1], pat) && Guarded(ps[k..], pat)
  {
    assert forall i | 0 <= i < k + 1 :: ps[..k + 1][i] == ps[i];
    assert forall i | 0 <= i < |ps| - k :: ps[k..][i] == ps[k + i];
  }

  /** Filling the slots before `k` with pattern-free text leaves a pattern-free prefix. */
  lemma PrefixAbsent(ps: seq<string>, xs: seq<string>, pat: string, k: nat)
    requires k < |ps| - 1 && k <= |xs| && Guarded(ps, pat)
    requires forall j | 0 <= j < k :: !Contains(xs[j], pat)
    ensures !Contains(Fill(ps[..k + 1], xs[..k]), pat)
    ensures |Fill(ps[..k + 1], xs[..k])| > 0
    ensures Fill(ps[..k + 1], xs[..k])[|Fill(ps[..k + 1], xs[..k])| - 1] !in pat
  {
    GuardedSlices(ps, pat, k);
    assert forall j | 0 <= j < k :: xs[..k][j] == xs[j];
    FillAbsent(ps[..k + 1], xs[..k], pat);
    FillEdges(ps[..k + 1], xs[..k]);
    assert ps[..k + 1][k] == ps[k];
  }

  /** Placeholders other than `pat` after slot `k` leave a pattern-free suffix. */
  lemma SuffixAbsent(ps: seq<string>, pats: seq<string>, pat: string, k: nat)
    requires |ps| == |pats| + 1 && k < |pats| && Guarded(ps, pat)
    requires forall j | k < j < |pats| :: !Contains(pats[j], pat)
    ensures !Contains(Fill(ps[k + 1..], pats[k + 1..]), pat)
  {
    GuardedSlices(ps, pat, k + 1);
    assert forall j | k + 1 <= j < |pats| :: pats[k + 1..][j - k - 1] == pats[j];
    FillAbsent(ps[k + 1..], pats[k + 1..], pat);
  }

  /**
   Before and after step `k`, the fill differs only in slot `k`: the
   placeholder there becomes the argument, between a fixed prefix and suffix.
   */
  lemma FillAroundSlot(ps: seq<string>, pats: seq<string>, xs: seq<string>, k: nat)
    requires |ps| == |pats| + 1 && |xs| == |pats| && k < |pats|
    ensures Fill(ps, xs[..k] + pats[k..])
         == Fill(ps[..k + 1], xs[..k]) + pats[k] + Fill(ps[k + 1..], pats[k + 1..])
    ensures Fill(ps, xs[..k + 1] + pats[k + 1..])
         == Fill(ps[..k + 1], xs[..k]) + xs[k] + Fill(ps[k + 1..], pats[k + 1..])
  {
    var before, after := xs[..k] + pats[k..], xs[..k + 1] + pats[k + 1..];
    FillSplit(ps, before, k);
    FillSplit(ps, after, k);
    assert before[..k] == xs[..k] == after[..k];
    assert before[k] == pats[k] && after[k] == xs[k];
    assert before[k + 1..] == pats[k + 1..] == after[k + 1..];
  }

  /**
   One replacement step: when slots before `k` already hold arguments that
   do not contain `pats[k]`, and the later slots still hold placeholders
   distinct from it, replacing `pats[k]` fills slot `k` alone.
   */
  lemma FillStep(ps: seq<string>, pats: seq<string>, xs: seq<string>, k: nat)
    requires |ps| == |pats| + 1 && |xs| == |pats| && k < |pats|
    requires |pats[k]| > 0 && Guarded(ps, pats[k])
    requires forall j | 0 <= j < k :: !Contains(xs[j], pats[k])
    requires forall j | k < j < |pats| :: !Contains(pats[j], pats[k])
    ensures Replace(Fill(ps, xs[..k] + pats[k..]), pats[k], xs[k])
         == Fill(ps, xs[..k + 1] + pats[k + 1..])
  {
    FillAroundSlot(ps, pats, xs, k);
    PrefixAbsent(ps, xs, pats[k], k);
    SuffixAbsent(ps, pats, pats[k], k);
    ReplaceSplice(Fill(ps[..k + 1], xs[..k]), pats[k], Fill(ps[k + 1..], pats[k + 1..]), xs[k]);
  }

  /** Every placeholder is non-empty and guarded by the pieces. */
  predicate AllGuarded(ps: seq<string>, pats: seq<string>)
  {
    forall i | 0 <= i < |pats| :: |pats[i]| > 0 && Guarded(ps, pats[i])
  }

  /** No placeholder occurs inside another. */
  predicate Unnested(pats: seq<string>)
  {
    forall i, j | 0 <= i < |pats| && 0 <= j < |pats| && i != j :: !Contains(pats[j], pats[i])
  }

  /**
   No argument holds a placeholder that is replaced after its own slot,
   counting only the replacements before `m`.
   */
  predicate NoLaterPattern(xs: seq<string>, pats: seq<string>, m: nat)
  {
    forall i, j | 0 <= j < i < m && i < |pats| && j < |xs| :: !Contains(xs[j], pats[i])
  }

  /**
   Replacing the placeholders `k` to `m-1` in turn fills each of those
   slots with its own argument, provided no argument holds a placeholder
   replaced after it. The last argument replaced is never rescanned.
   */
  lemma {:induction false} FillReplaceSpan(ps: seq<string>, pats: seq<string>, xs: seq<string>, k: nat, m: nat)
    requires |ps| == |pats| + 1 && |xs| == |pats| && k <= m <= |pats|
    requires AllGuarded(ps, pats) && Unnested(pats) && NoLaterPattern(xs, pats, m)
    ensures ReplaceSpan(Fill(ps, xs[..k] + pats[k..]), pats, xs, k, m) == Fill(ps, xs[..m] + pats[m..])
    decreases m - k
  {
    if k < m {
      FillStep(ps, pats, xs, k);
      FillReplaceSpan(ps, pats, xs, k + 1, m);
    }
  }

  /** `FillReplaceSpan` from the bare template, over the first `m` placeholders. */
  lemma FillReplacePrefix(ps: seq<string>, pats: seq<string>, xs: seq<string>, m: nat)
    requires |ps| == |pats| + 1 && |xs| == |pats| && m <= |pats|
    requires AllGuarded(ps, pats) && Unnested(pats) && NoLaterPattern(xs, pats, m)
    ensures ReplaceSpan(Fill(ps, pats), pats, xs, 0, m) == Fill(ps, xs[..m] + pats[m..])
  {
    assert xs[..0] + pats[0..] == pats;
    FillReplaceSpan(ps, pats, xs, 0, m);
  }

  /** `FillReplaceSpan` from the bare template, over every placeholder. */
  lemma FillReplaceAll(ps: seq<string>, pats: seq<string>, xs: seq<string>)
    requires |ps| == |pats| + 1 && |xs| == |pats|
    requires AllGuarded(ps, pats) && Unnested(pats) && NoLaterPattern(xs, pats, |pats|)
    ensures ReplaceSpan(Fill(ps, pats), pats, xs, 0, |pats|) == Fill(ps, xs)
  {
    assert xs[..0] + pats[0..] == pats;
    FillReplaceSpan(ps, pats, xs, 0, |pats|);
    assert xs[..|pats|] + pats[|pats|..] == xs;
  }

  /** Each slot that holds exactly `pat` now holds `rep`; the others are kept. */
  function SubstSlots(xs: seq<string>, pat: string, rep: string): (r: seq<string>)
    ensures |r| == |xs|
    ensures forall j | 0 <= j < |xs| :: r[j] == (if xs[j] == pat then rep else xs[j])
  {
    if |xs| == 0 then [] else [if xs[0] == pat then rep else xs[0]] + SubstSlots(xs[1..], pat, rep)
  }

  /**
   Replacing `pat` in a fill whose slots each hold either `pat` itself or
   text free of it rewrites exactly those slots: one call reaches every
   slot, not only the one the placeholder was meant for.
   */
  lemma {:induction false} FillReplaceSlots(ps: seq<string>, xs: seq<string>, pat: string, rep: string)
    requires |ps| == |xs| + 1 && |pat| > 0 && Guarded(ps, pat)
    requires forall j | 0 <= j < |xs| :: xs[j] == pat || !Contains(xs[j], pat)
    ensures Replace(Fill(ps, xs), pat, rep) == Fill(ps, SubstSlots(xs, pat, rep))
    decreases |xs|
  {
    if |xs| == 0 {
      assert !Contains(ps[0], pat);
      ReplaceAbsent(ps[0], pat, rep);
    } else {
      var rest := Fill(ps[1..], xs[1..]);
      var ys := SubstSlots(xs, pat, rep);
      assert Fill(ps, xs) == ps[0] + xs[0] + rest;
      Associative(ps[0], xs[0], rest);
      GuardedSlices(ps, pat, 1);
      FillReplaceSlots(ps[1..], xs[1..], pat, rep);
      FillEdges(ps[1..], xs[1..]);
      assert |ps[0]| > 0 && ps[0][|ps[0]| - 1] !in pat && !Contains(ps[0], pat);
      ReplaceSkipsPrefix(ps[0], xs[0] + rest, pat, rep);
      assert |ps[1]| > 0 && ps[1][0] !in pat;
      ReplaceSlot(xs[0], rest, pat, rep);
      assert ys[1..] == SubstSlots(xs[1..], pat, rep);
      Associative(ps[0], ys[0], Fill(ps[1..], ys[1..]));
    }
  }

  /** A slot holding exactly `pat` is rewritten; a slot free of it is copied. */
  lemma ReplaceSlot(x: string, rest: string, pat: string, rep: string)
    requires |pat| > 0 && |rest| > 0 && rest[0] !in pat
    requires x == pat || !Contains(x, pat)
    ensures Replace(x + rest, pat, rep) == (if x == pat then rep else x) + Replace(rest, pat, rep)
  {
    if x == pat {
      ReplaceAtHead(pat, rest, rep);
    } else {
      ReplaceSkipsPrefix(x, rest, pat, rep);
    }
  }

  /** Every slot with `pat` replaced inside it. */
  function MapReplace(xs: seq<string>, pat: string, rep: string): (r: seq<string>)
    requires |pat| > 0
    ensures |r| == |xs|
    ensures forall j | 0 <= j < |xs| :: r[j] == Replace(xs[j], pat, rep)
  {
    if |xs| == 0 then [] else [Replace(xs[0], pat, rep)] + MapReplace(xs[1..], pat, rep)
  }

  /**
   With guarded pieces, one `replace` call on a fill rewrites each slot on
   its own, whatever the slots hold: an occurrence inside an argument is
   rewritten like any other, and none forms across a seam.
   */
  lemma {:induction false} FillReplaceEach(ps: seq<string>, xs: seq<string>, pat: string, rep: string)
    requires |ps| == |xs| + 1 && |pat| > 0 && Guarded(ps, pat)
    ensures Replace(Fill(ps, xs), pat, rep) == Fill(ps, MapReplace(xs, pat, rep))
    decreases |xs|
  {
    if |xs| == 0 {
      assert !Contains(ps[0], pat);
      ReplaceAbsent(ps[0], pat, rep);
    } else {
      var rest := Fill(ps[1..], xs[1..]);
      var ys := MapReplace(xs, pat, rep);
      assert Fill(ps, xs) == ps[0] + xs[0] + rest;
      GuardedSlices(ps, pat, 1);
      FillEdges(ps[1..], xs[1..]);
      assert |ps[1]| > 0 && ps[1][0] !in pat;
      ReplaceAppend(ps[0] + xs[0], rest, pat, rep);
      assert |ps[0]| > 0 && ps[0][|ps[0]| - 1] !in pat && !Contains(ps[0], pat);
      ReplaceSkipsPrefix(ps[0], xs[0], pat, rep);
      FillReplaceEach(ps[1..], xs[1..], pat, rep);
      assert ys[1..] == MapReplace(xs[1..], pat, rep);
    }
  }

  /** `ReplaceSpan` applies its last replacement on the outside. */
  lemma {:induction false} ReplaceSpanLast(s: string, pats: seq<string>, reps: seq<string>, k: nat, m: nat)
    requires |pats| == |reps| && k <= m < |pats|
    requires forall i | 0 <= i < |pats| :: |pats[i]| > 0
    ensures ReplaceSpan(s, pats, reps, k, m + 1) == Replace(ReplaceSpan(s, pats, reps, k, m), pats[m], reps[m])
    decreases m - k
  {
    if k < m {
      ReplaceSpanLast(Replace(s, pats[k], reps[k]), pats, reps, k + 1, m);
    }
  }

  /**
   The slots of a template after its first `m` placeholders were replaced
   in turn: slot `j < m` holds `xs[j]` as rewritten by the replacements
   after its own, the other slots still hold their placeholders.
   */
  function Rescanned(xs: seq<string>, pats: seq<string>, m: nat): (r: seq<string>)
    requires |xs| == |pats| && m <= |pats|
    requires forall i | 0 <= i < |pats| :: |pats[i]| > 0
    ensures |r| == |pats|
  {
    seq(|pats|, j requires 0 <= j < |pats| => if j < m then ReplaceSpan(xs[j], pats, xs, j + 1, m) else pats[j])
  }

  /**
   Replacing the placeholders of a template one after another, with any
   arguments at all: each argument lands in its own slot and is then
   rewritten by every later replacement, the way sequential `replace` calls
   rescan what earlier calls inserted.
   */
  lemma {:induction false} TemplateAfterSpan(ps: seq<string>, pats: seq<string>, xs: seq<string>, m: nat)
    requires |ps| == |pats| + 1 && |xs| == |pats| && m <= |pats|
    requires AllGuarded(ps, pats) && Unnested(pats)
    ensures ReplaceSpan(Fill(ps, pats), pats, xs, 0, m) == Fill(ps, Rescanned(xs, pats, m))
    decreases m
  {
    if m == 0 {
      assert Rescanned(xs, pats, 0) == pats;
    } else {
      var k := m - 1;
      ReplaceSpanLast(Fill(ps, pats), pats, xs, 0, k);
      TemplateAfterSpan(ps, pats, xs, k);
      FillReplaceEach(ps, Rescanned(xs, pats, k), pats[k], xs[k]);
      RescannedStep(xs, pats, k);
    }
  }

  /** One more replacement moves `Rescanned` one placeholder along. */
  lemma RescannedStep(xs: seq<string>, pats: seq<string>, k: nat)
    requires |xs| == |pats| && k < |pats|
    requires forall i | 0 <= i < |pats| :: |pats[i]| > 0
    requires Unnested(pats)
    ensures MapReplace(Rescanned(xs, pats, k), pats[k], xs[k]) == Rescanned(xs, pats, k + 1)
  {
    var a, b := MapReplace(Rescanned(xs, pats, k), pats[k], xs[k]), Rescanned(xs, pats, k + 1);
    forall j | 0 <= j < |pats|
      ensures a[j] == b[j]
    {
      if j < k {
        ReplaceSpanLast(xs[j], pats, xs, j + 1, k);
      } else if j == k {
        ReplaceSelf(pats[k], xs[k]);
      } else {
        ReplaceAbsent(pats[j], pats[k], xs[k]);
      }
    }
  }

  /** `Rescanned` of all six slots of a six-placeholder template, spelled out. */
  lemma RescannedSix(xs: seq<string>, pats: seq<string>)
    requires |xs| == |pats| == 6
    requires forall i | 0 <= i < |pats| :: |pats[i]| > 0
    ensures Rescanned(xs, pats, 6)
         == [ReplaceSpan(xs[0], pats, xs, 1, 6), ReplaceSpan(xs[1], pats, xs, 2, 6),
             ReplaceSpan(xs[2], pats, xs, 3, 6), ReplaceSpan(xs[3], pats, xs, 4, 6),
             ReplaceSpan(xs[4], pats, xs, 5, 6), xs[5]]
  {
    assert ReplaceSpan(xs[5], pats, xs, 6, 6) == xs[5];
  }

  /** A string replaced as a whole becomes the replacement. */
  lemma ReplaceSelf(pat: string, rep: string)
    requires |pat| > 0
    ensures Replace(pat, pat, rep) == rep
  {
    assert pat[..|pat|] == pat && pat[|pat|..] == [];
  }

  /** The fill of the first `k` slots grows by one slot and one piece at a time. */
  lemma FillPrefixStep(ps: seq<string>, xs: seq<string>, k: nat)
    requires |ps| == |xs| + 1 && 1 <= k <= |xs|
    ensures Fill(ps[..k + 1], xs[..k]) == Fill(ps[..k], xs[..k - 1]) + xs[k - 1] + ps[k]
  {
    var qs, ys := ps[..k + 1], xs[..k];
    FillSplit(qs, ys, k - 1);
    assert qs[..k] == ps[..k] && ys[..k - 1] == xs[..k - 1];
    assert qs[k..] == [ps[k]] && ys[k..] == [];
  }

  /** A six-slot fill spelled out piece by piece. */
  lemma FillSix(ps: seq<string>, xs: seq<string>)
    requires |ps| == 7 && |xs| == 6
    ensures Fill(ps, xs)
         == ps[0] + xs[0] + ps[1] + xs[1] + ps[2] + xs[2] + ps[3] + xs[3] + ps[4] + xs[4] + ps[5] + xs[5] + ps[6]
  {
    assert Fill(ps[..1], xs[..0]) == ps[0];
    FillPrefixStep(ps, xs, 1);
    FillPrefixStep(ps, xs, 2);
    FillPrefixStep(ps, xs, 3);
    FillPrefixStep(ps, xs, 4);
    FillPrefixStep(ps, xs, 5);
    FillPrefixStep(ps, xs, 6);
    assert ps[..7] == ps && xs[..6] == xs;
  }

  /** The six-step replacement fold spelled out call by call. */
  lemma ReplaceSpanSix(s: string, pats: seq<string>, xs: seq<string>)
    requires |pats| == 6 && |xs| == 6
    requires forall i | 0 <= i < |pats| :: |pats[i]| > 0
    ensures ReplaceSpan(s, pats, xs, 0, 6) == Replace(ReplaceSpan(s, pats, xs, 0, 5), pats[5], xs[5])
    ensures ReplaceSpan(s, pats, xs, 0, 5)
         == Replace(Replace(Replace(Replace(Replace(s, pats[0], xs[0]), pats[1], xs[1]), pats[2], xs[2]),
                            pats[3], xs[3]), pats[4], xs[4])
  {
    var s1 := Replace(s, pats[0], xs[0]);
    var s2 := Replace(s1, pats[1], xs[1]);
    var s3 := Replace(s2, pats[2], xs[2]);
    var s4 := Replace(s3, pats[3], xs[3]);
    var s5 := Replace(s4, pats[4], xs[4]);
    assert ReplaceSpan(s5, pats, xs, 5, 5) == s5;
    assert ReplaceSpan(s5, pats, xs, 5, 6) == ReplaceSpan(Replace(s5, pats[5], xs[5]), pats, xs, 6, 6);
    assert ReplaceSpan(s, pats, xs, 0, 5) == s5;
    assert ReplaceSpan(s, pats, xs, 0, 6) == ReplaceSpan(s5, pats, xs, 5, 6);
  }
}
