/** The garbage filter applied to every search-result text: keep only
    allow-listed characters, then shorten long runs of newlines and of
    spaces.  Characters are Unicode scalar values, so `c as int` is the
    code point. */
module TextFilter {

  // ---------------------------------------------------------------------
  // Character classes of the allow-list
  // ---------------------------------------------------------------------

  /** Printable ASCII, code points 32 to 126. */
  predicate IsPrintableAscii(c: char) { 32 <= c as int <= 126 }

  /** The three control characters that are kept. */
  predicate IsControlChar(c: char) { c == '\n' || c == '\t' || c == '\r' }

  /** CJK unified ideographs, U+4E00 to U+9FFF. */
  predicate IsChinese(c: char) { 0x4E00 <= c as int <= 0x9FFF }

  /** Miscellaneous Symbols, U+2600 to U+26FF. */
  predicate IsMiscSymbol(c: char) { 0x2600 <= c as int <= 0x26FF }

  /** Dingbats, U+2700 to U+27BF. */
  predicate IsDingbat(c: char) { 0x2700 <= c as int <= 0x27BF }

  /** Emoji, U+1F300 to U+1F9FF. */
  predicate IsEmoji(c: char) { 0x1F300 <= c as int <= 0x1F9FF }

  /** A character survives the filter exactly when it is in one of the classes. */
  predicate IsValidChar(c: char)
  {
    IsPrintableAscii(c) || IsControlChar(c) || IsChinese(c) ||
    IsMiscSymbol(c) || IsDingbat(c) || IsEmoji(c)
  }

  // ---------------------------------------------------------------------
  // Keeping the characters that satisfy a predicate
  // ---------------------------------------------------------------------

  /** The characters of `s` that satisfy `p`, in their original order. */
  function Select(s: string, p: char -> bool): (r: string)
    ensures |r| <= |s|
    ensures forall i :: 0 <= i < |r| ==> p(r[i])
    ensures forall ch :: ch in r <==> ch in s && p(ch)
  {
    if s == [] then [] else (if p(s[0]) then [s[0]] else []) + Select(s[1..], p)
  }

  /** Selection distributes over concatenation: nothing is reordered. */
  lemma {:induction false} SelectAppend(s: string, t: string, p: char -> bool)
    ensures Select(s + t, p) == Select(s, p) + Select(t, p)
  {
    if s == [] {
      assert s + t == t;
    } else {
      assert (s + t)[1..] == s[1..] + t;
      SelectAppend(s[1..], t, p);
    }
  }

  /** A text whose every character satisfies `p` is selected whole. */
  lemma {:induction false} SelectAll(s: string, p: char -> bool)
    requires forall i :: 0 <= i < |s| ==> p(s[i])
    ensures Select(s, p) == s
  {
    if s != [] {
      SelectAll(s[1..], p);
    }
  }

  /** A text none of whose characters satisfies `p` is dropped whole. */
  lemma {:induction false} SelectNone(s: string, p: char -> bool)
    requires forall i :: 0 <= i < |s| ==> !p(s[i])
    ensures Select(s, p) == []
  {
    if s != [] {
      SelectNone(s[1..], p);
    }
  }

  /** Selecting twice is selecting once by both predicates. */
  lemma {:induction false} SelectSelect(s: string, p: char -> bool, q: char -> bool, pq: char -> bool)
    requires forall ch :: pq(ch) == (p(ch) && q(ch))
    ensures Select(Select(s, p), q) == Select(s, pq)
  {
    if s != [] {
      SelectSelect(s[1..], p, q, pq);
      SelectAppend(if p(s[0]) then [s[0]] else [], Select(s[1..], p), q);
    }
  }

  // ---------------------------------------------------------------------
  // Runs of one character
  // ---------------------------------------------------------------------

  /** `n` copies of `c`. */
  function Rep(c: char, n: nat): string
  {
    seq(n, _ => c)
  }

  function Min(a: nat, b: nat): nat { if a <= b then a else b }

  /** Length of the maximal run of `c` at the start of `s`. */
  function LeadRun(s: string, c: char): (n: nat)
    ensures n <= |s|
    ensures forall j :: 0 <= j < n ==> s[j] == c
    ensures n < |s| ==> s[n] != c
  {
    if s != [] && s[0] == c then 1 + LeadRun(s[1..], c) else 0
  }

  /** `s` begins with at least `n` copies of `c` exactly when its leading run has length `n` or more. */
  lemma LeadRunAtLeast(s: string, c: char, n: nat)
    ensures LeadRun(s, c) >= n <==> n <= |s| && forall j :: 0 <= j < n ==> s[j] == c
  {
  }

  /** A block of `a` copies of `c` followed by anything but `c` has a leading run of exactly `a`. */
  lemma {:induction false} LeadRunOfRep(c: char, a: nat, rest: string)
    requires rest == [] || rest[0] != c
    ensures LeadRun(Rep(c, a) + rest, c) == a
  {
    if a > 0 {
      assert (Rep(c, a) + rest)[1..] == Rep(c, a - 1) + rest;
      LeadRunOfRep(c, a - 1, rest);
    } else {
      assert Rep(c, a) + rest == rest;
    }
  }

  /** No run of `c` in `t` is longer than `keep`. */
  ghost predicate RunsAtMost(t: string, c: char, keep: nat)
  {
    forall i :: 0 <= i <= |t| ==> LeadRun(t[i..], c) <= keep
  }

  lemma RunsAtMostSuffix(t: string, c: char, keep: nat, k: nat)
    requires k <= |t| && RunsAtMost(t, c, keep)
    ensures RunsAtMost(t[k..], c, keep)
  {
    forall i | 0 <= i <= |t[k..]|
      ensures LeadRun(t[k..][i..], c) <= keep
    {
      assert t[k..][i..] == t[k + i..];
    }
  }

  // ---------------------------------------------------------------------
  // Collapsing runs: re.sub with the pattern c{keep+1,} and keep copies of c
  // ---------------------------------------------------------------------

  /** Every maximal run of `c` longer than `keep` is replaced by `keep`
      copies of `c`; shorter runs and every other character are copied.
      The regular expression is greedy and scans left to right, so it
      matches maximal runs only. */
  function CollapseRuns(s: string, c: char, keep: nat): (r: string)
    ensures |r| <= |s|
    ensures forall ch :: ch in r ==> ch in s
    decreases |s|
  {
    if s == [] then []
    else if s[0] != c then [s[0]] + CollapseRuns(s[1..], c, keep)
    else
      var n := LeadRun(s, c);
      Rep(c, Min(n, keep)) + CollapseRuns(s[n..], c, keep)
  }

  /** A text without `c` is not changed by collapsing runs of `c`. */
  lemma {:induction false} CollapseAbsent(s: string, c: char, keep: nat)
    requires forall i :: 0 <= i < |s| ==> s[i] != c
    ensures CollapseRuns(s, c, keep) == s
  {
    if s != [] {
      CollapseAbsent(s[1..], c, keep);
    }
  }

  /** The first character of a collapsed text is the first of the input. */
  lemma CollapseFirst(s: string, c: char, keep: nat)
    requires s != [] && keep >= 1
    ensures CollapseRuns(s, c, keep) != [] && CollapseRuns(s, c, keep)[0] == s[0]
  {
  }

  /** A leading run of `n` copies of `c` becomes `min(n, keep)` copies. */
  lemma CollapseLeadRunSelf(s: string, c: char, keep: nat)
    ensures LeadRun(CollapseRuns(s, c, keep), c) == Min(LeadRun(s, c), keep)
  {
    if s != [] && s[0] == c {
      var n := LeadRun(s, c);
      var rest := CollapseRuns(s[n..], c, keep);
      assert rest == [] || rest[0] != c;
      LeadRunOfRep(c, Min(n, keep), rest);
    }
  }

  /** A leading run that stops before position `k` is also the leading run
      of the first `k` characters. */
  lemma {:induction false} LeadRunTake(s: string, k: nat, c: char)
    requires LeadRun(s, c) < k <= |s|
    ensures LeadRun(s[..k], c) == LeadRun(s, c)
  {
    if s[0] == c {
      assert s[..k][1..] == s[1..][..k - 1];
      LeadRunTake(s[1..], k - 1, c);
    }
  }

  /** A text cut after a character other than `c` collapses piece by piece:
      no run spans the cut. */
  lemma {:induction false} CollapseSplit(s: string, k: nat, c: char, keep: nat)
    requires 0 < k <= |s| && s[k - 1] != c
    ensures CollapseRuns(s, c, keep) == CollapseRuns(s[..k], c, keep) + CollapseRuns(s[k..], c, keep)
    decreases k
  {
    if s[0] != c {
      if k == 1 {
        SplitLastStep(s, c, keep);
      } else {
        CollapseSplit(s[1..], k - 1, c, keep);
        SplitCopyStep(s, k, c, keep);
      }
    } else {
      var n := LeadRun(s, c);
      assert n < k;
      CollapseSplit(s[n..], k - n, c, keep);
      SplitRunStep(s, k, s[n..], c, keep);
    }
  }

  /** `CollapseSplit` when the cut follows the first character. */
  lemma SplitLastStep(s: string, c: char, keep: nat)
    requires s != [] && s[0] != c
    ensures CollapseRuns(s, c, keep) == CollapseRuns(s[..1], c, keep) + CollapseRuns(s[1..], c, keep)
  {
    assert s[..1] == [s[0]] && s[..1][1..] == [];
  }

  /** One step of `CollapseSplit` past a character other than `c`. */
  lemma SplitCopyStep(s: string, k: nat, c: char, keep: nat)
    requires 1 < k <= |s| && s[0] != c
    requires CollapseRuns(s[1..], c, keep) == CollapseRuns(s[1..][..k - 1], c, keep) + CollapseRuns(s[1..][k - 1..], c, keep)
    ensures CollapseRuns(s, c, keep) == CollapseRuns(s[..k], c, keep) + CollapseRuns(s[k..], c, keep)
  {
    assert s[..k][1..] == s[1..][..k - 1] && s[1..][k - 1..] == s[k..];
  }

  /** One step of `CollapseSplit` past a leading run of `c` that ends
      before the cut; `t` is the text after that run. */
  lemma SplitRunStep(s: string, k: nat, t: string, c: char, keep: nat)
    requires 0 < k <= |s| && s[0] == c && LeadRun(s, c) < k && t == s[LeadRun(s, c)..]
    requires CollapseRuns(t, c, keep)
          == CollapseRuns(t[..k - LeadRun(s, c)], c, keep) + CollapseRuns(t[k - LeadRun(s, c)..], c, keep)
    ensures CollapseRuns(s, c, keep) == CollapseRuns(s[..k], c, keep) + CollapseRuns(s[k..], c, keep)
  {
    var n := LeadRun(s, c);
    CollapseRunUnfold(s, c, keep);
    TakeRunUnfold(s, k, t, c, keep);
    assert t[k - n..] == s[k..];
    JoinPieces(CollapseRuns(s, c, keep), CollapseRuns(s[..k], c, keep), CollapseRuns(s[k..], c, keep),
               Rep(c, Min(n, keep)), CollapseRuns(t[..k - n], c, keep), CollapseRuns(t[k - n..], c, keep));
  }

  /** Regrouping three pieces: `r + (a + b)` split after `a`. */
  lemma JoinPieces(x: string, y: string, z: string, r: string, a: string, b: string)
    requires x == r + (a + b) && y == r + a && z == b
    ensures x == y + z
  {
  }

  /** The first `k` characters of `s`, when the leading run of `c` stops
      before `k`, collapse to that run cut down, then the rest up to `k`. */
  lemma TakeRunUnfold(s: string, k: nat, t: string, c: char, keep: nat)
    requires 0 < k <= |s| && s[0] == c && LeadRun(s, c) < k && t == s[LeadRun(s, c)..]
    ensures CollapseRuns(s[..k], c, keep)
         == Rep(c, Min(LeadRun(s, c), keep)) + CollapseRuns(t[..k - LeadRun(s, c)], c, keep)
  {
    var n := LeadRun(s, c);
    LeadRunTake(s, k, c);
    assert s[..k][0] == c && s[..k][n..] == t[..k - n];
    CollapseRunUnfold(s[..k], c, keep);
  }

  /** The first step of `CollapseRuns` on a run of `c`. */
  lemma CollapseRunUnfold(x: string, c: char, keep: nat)
    requires x != [] && x[0] == c
    ensures CollapseRuns(x, c, keep) == Rep(c, Min(LeadRun(x, c), keep)) + CollapseRuns(x[LeadRun(x, c)..], c, keep)
  {
  }

  /** Every maximal run, wherever it sits: `n` copies of `c` between two
      characters other than `c` become `min(n, keep)` copies, and the text
      on either side collapses on its own. */
  lemma CollapseRunAt(u: string, n: nat, v: string, c: char, keep: nat)
    requires u == [] || u[|u| - 1] != c
    requires v == [] || v[0] != c
    ensures CollapseRuns(u + (Rep(c, n) + v), c, keep)
         == CollapseRuns(u, c, keep) + (Rep(c, Min(n, keep)) + CollapseRuns(v, c, keep))
  {
    var w := Rep(c, n) + v;
    if u != [] {
      var s := u + w;
      assert s[|u| - 1] == u[|u| - 1] && s[..|u|] == u && s[|u|..] == w;
      CollapseSplit(s, |u|, c, keep);
    } else {
      assert u + w == w;
    }
    CollapseRunHead(n, v, c, keep);
  }

  /** A text that starts with a run of exactly `n` copies of `c` starts,
      once collapsed, with `min(n, keep)` copies. */
  lemma CollapseRunHead(n: nat, v: string, c: char, keep: nat)
    requires v == [] || v[0] != c
    ensures CollapseRuns(Rep(c, n) + v, c, keep) == Rep(c, Min(n, keep)) + CollapseRuns(v, c, keep)
  {
    var w := Rep(c, n) + v;
    if n == 0 {
      assert w == v && Rep(c, 0) == [];
    } else {
      LeadRunOfRep(c, n, v);
      assert w[0] == c && w[n..] == v;
    }
  }

  /** After collapsing, no run of `c` is longer than `keep`. */
  lemma {:induction false} CollapseBoundsRuns(s: string, c: char, keep: nat)
    ensures RunsAtMost(CollapseRuns(s, c, keep), c, keep)
    decreases |s|
  {
    var out := CollapseRuns(s, c, keep);
    if s == [] {
      assert forall i :: 0 <= i <= |out| ==> out[i..] == [];
    } else if s[0] != c {
      var rest := CollapseRuns(s[1..], c, keep);
      CollapseBoundsRuns(s[1..], c, keep);
      forall i | 0 <= i <= |out|
        ensures LeadRun(out[i..], c) <= keep
      {
        if i > 0 {
          assert out[i..] == rest[i - 1..];
        }
      }
    } else {
      CollapseBoundsRuns(s[LeadRun(s, c)..], c, keep);
      BoundsRunStep(s, c, keep);
    }
  }

  /** One step of `CollapseBoundsRuns`: a leading run cut to at most `keep`
      copies, followed by a bounded rest, is bounded. */
  lemma BoundsRunStep(s: string, c: char, keep: nat)
    requires s != [] && s[0] == c
    requires RunsAtMost(CollapseRuns(s[LeadRun(s, c)..], c, keep), c, keep)
    ensures RunsAtMost(CollapseRuns(s, c, keep), c, keep)
  {
    var out := CollapseRuns(s, c, keep);
    var n := LeadRun(s, c);
    var m := Min(n, keep);
    var rest := CollapseRuns(s[n..], c, keep);
    assert out == Rep(c, m) + rest;
    assert rest == [] || rest[0] != c;
    forall i | 0 <= i <= |out|
      ensures LeadRun(out[i..], c) <= keep
    {
      if i <= m {
        assert out[i..] == Rep(c, m - i) + rest;
        LeadRunOfRep(c, m - i, rest);
      } else {
        assert out[i..] == rest[i - m..];
      }
    }
  }

  /** Collapsing does not change a text whose runs of `c` are already short. */
  lemma {:induction false} CollapseIdentity(s: string, c: char, keep: nat)
    requires RunsAtMost(s, c, keep)
    ensures CollapseRuns(s, c, keep) == s
    decreases |s|
  {
    if s == [] {
    } else if s[0] != c {
      RunsAtMostSuffix(s, c, keep, 1);
      CollapseIdentity(s[1..], c, keep);
      CopyStep(s, c, keep);
    } else {
      var n := LeadRun(s, c);
      RunsAtMostHead(s, c, keep);
      RunsAtMostSuffix(s, c, keep, n);
      CollapseIdentity(s[n..], c, keep);
      IdentityRunStep(s, c, keep, n);
    }
  }

  lemma RunsAtMostHead(t: string, c: char, keep: nat)
    requires RunsAtMost(t, c, keep)
    ensures LeadRun(t, c) <= keep
  {
    assert t[0..] == t;
  }

  /** A character other than `c` is copied. */
  lemma CopyStep(s: string, c: char, keep: nat)
    requires s != [] && s[0] != c
    requires CollapseRuns(s[1..], c, keep) == s[1..]
    ensures CollapseRuns(s, c, keep) == s
  {
    assert s == [s[0]] + s[1..];
  }

  /** One step of `CollapseIdentity`: a leading run no longer than `keep` is copied. */
  lemma IdentityRunStep(s: string, c: char, keep: nat, n: nat)
    requires s != [] && s[0] == c && n == LeadRun(s, c) && n <= keep
    requires CollapseRuns(s[n..], c, keep) == s[n..]
    ensures CollapseRuns(s, c, keep) == s
  {
    assert CollapseRuns(s, c, keep) == Rep(c, n) + s[n..];
    assert Rep(c, n) == s[..n];
    assert s == s[..n] + s[n..];
  }

  /** With `keep >= 1` no character disappears entirely. */
  lemma {:induction false} CollapseKeepsChars(s: string, c: char, keep: nat, ch: char)
    requires keep >= 1
    ensures ch in CollapseRuns(s, c, keep) <==> ch in s
    decreases |s|
  {
    if s != [] {
      CollapseFirst(s, c, keep);
      if s[0] != c {
        CollapseKeepsChars(s[1..], c, keep, ch);
        assert s == [s[0]] + s[1..];
      } else {
        var n := LeadRun(s, c);
        CollapseKeepsChars(s[n..], c, keep, ch);
        assert s == s[..n] + s[n..];
        if ch in s[..n] {
          assert ch == c;
        }
      }
    }
  }

  /** Collapsing runs of `c` leaves the leading run of any other character alone. */
  lemma {:induction false} CollapseLeadRun(s: string, c: char, keep: nat, d: char)
    requires keep >= 1 && d != c
    ensures LeadRun(CollapseRuns(s, c, keep), d) == LeadRun(s, d)
    decreases |s|
  {
    if s != [] {
      CollapseFirst(s, c, keep);
      if s[0] == d {
        var rest := CollapseRuns(s[1..], c, keep);
        CollapseLeadRun(s[1..], c, keep, d);
        assert ([s[0]] + rest)[1..] == rest;
      }
    }
  }

  /** Collapsing runs of `c` cannot lengthen a run of another character:
      it never removes a whole run of `c`, so no two runs of `d` are joined. */
  lemma {:induction false} CollapseKeepsOtherRuns(s: string, c: char, keep: nat, d: char, m: nat)
    requires keep >= 1 && d != c && RunsAtMost(s, d, m)
    ensures RunsAtMost(CollapseRuns(s, c, keep), d, m)
    decreases |s|
  {
    var out := CollapseRuns(s, c, keep);
    if s == [] {
      assert forall i :: 0 <= i <= |out| ==> out[i..] == [];
    } else if s[0] != c {
      var rest := CollapseRuns(s[1..], c, keep);
      RunsAtMostSuffix(s, d, m, 1);
      CollapseKeepsOtherRuns(s[1..], c, keep, d, m);
      forall i | 0 <= i <= |out|
        ensures LeadRun(out[i..], d) <= m
      {
        if i == 0 {
          assert out[0..] == out && s[0..] == s;
          CollapseLeadRun(s, c, keep, d);
        } else {
          assert out[i..] == rest[i - 1..];
        }
      }
    } else {
      var n := LeadRun(s, c);
      var k := Min(n, keep);
      var rest := CollapseRuns(s[n..], c, keep);
      RunsAtMostSuffix(s, d, m, n);
      CollapseKeepsOtherRuns(s[n..], c, keep, d, m);
      forall i | 0 <= i <= |out|
        ensures LeadRun(out[i..], d) <= m
      {
        if i < k {
          assert out[i..][0] == c;
        } else {
          assert out[i..] == rest[i - k..];
        }
      }
    }
  }

  /** Collapsing runs of `c` removes only copies of `c`: every other
      character survives, in order. */
  lemma {:induction false} CollapseSelect(s: string, c: char, keep: nat, p: char -> bool)
    requires !p(c)
    ensures Select(CollapseRuns(s, c, keep), p) == Select(s, p)
    decreases |s|
  {
    if s == [] {
    } else if s[0] != c {
      CollapseSelect(s[1..], c, keep, p);
      SelectAppend([s[0]], CollapseRuns(s[1..], c, keep), p);
      SelectAppend([s[0]], s[1..], p);
      assert s == [s[0]] + s[1..];
    } else {
      var n := LeadRun(s, c);
      CollapseSelect(s[n..], c, keep, p);
      SelectRunStep(s, c, keep, p, n);
    }
  }

  /** One step of `CollapseSelect`: the leading run of `c` and its
      replacement both vanish under selection. */
  lemma SelectRunStep(s: string, c: char, keep: nat, p: char -> bool, n: nat)
    requires !p(c) && s != [] && s[0] == c && n == LeadRun(s, c)
    requires Select(CollapseRuns(s[n..], c, keep), p) == Select(s[n..], p)
    ensures Select(CollapseRuns(s, c, keep), p) == Select(s, p)
  {
    var k := Min(n, keep);
    var rest := CollapseRuns(s[n..], c, keep);
    assert CollapseRuns(s, c, keep) == Rep(c, k) + rest;
    SelectSkip(Rep(c, k), rest, p);
    assert s == s[..n] + s[n..];
    SelectSkip(s[..n], s[n..], p);
  }

  /** A prefix none of whose characters satisfies `p` leaves no trace. */
  lemma SelectSkip(u: string, t: string, p: char -> bool)
    requires forall i :: 0 <= i < |u| ==> !p(u[i])
    ensures Select(u + t, p) == Select(t, p)
  {
    SelectAppend(u, t, p);
    SelectNone(u, p);
  }

  // ---------------------------------------------------------------------
  // filter_garbage
  // ---------------------------------------------------------------------

  /** The whole cleaner: allow-list, then newline runs of 3 or more become
      two newlines, then space runs of 2 or more become one space. */
  function FilterGarbage(s: string): (r: string)
    ensures |r| <= |s|
    ensures forall i :: 0 <= i < |r| ==> IsValidChar(r[i])
  {
    CollapseRuns(CollapseRuns(Select(s, IsValidChar), '\n', 2), ' ', 1)
  }

  /** On allow-listed text only the two collapses act. */
  lemma FilterGarbageOfValid(s: string)
    requires forall i :: 0 <= i < |s| ==> IsValidChar(s[i])
    ensures FilterGarbage(s) == CollapseRuns(CollapseRuns(s, '\n', 2), ' ', 1)
  {
    SelectAll(s, IsValidChar);
  }

  /** A text that the cleaner leaves alone: allow-listed characters only,
      no three newlines in a row and no two spaces in a row. */
  predicate IsClean(t: string)
  {
    && (forall i :: 0 <= i < |t| ==> IsValidChar(t[i]))
    && (forall i :: 0 <= i && i + 2 < |t| ==> !(t[i] == '\n' && t[i + 1] == '\n' && t[i + 2] == '\n'))
    && (forall i :: 0 <= i && i + 1 < |t| ==> !(t[i] == ' ' && t[i + 1] == ' '))
  }

  lemma NewlineRunsIndexed(t: string)
    ensures RunsAtMost(t, '\n', 2) <==>
      forall i :: 0 <= i && i + 2 < |t| ==> !(t[i] == '\n' && t[i + 1] == '\n' && t[i + 2] == '\n')
  {
    if RunsAtMost(t, '\n', 2) {
      forall i | 0 <= i && i + 2 < |t|
        ensures !(t[i] == '\n' && t[i + 1] == '\n' && t[i + 2] == '\n')
      {
        LeadRunAtLeast(t[i..], '\n', 3);
      }
    } else {
      var i :| 0 <= i <= |t| && LeadRun(t[i..], '\n') > 2;
      LeadRunAtLeast(t[i..], '\n', 3);
      assert t[i..][0] == t[i] && t[i..][1] == t[i + 1] && t[i..][2] == t[i + 2];
    }
  }

  lemma SpaceRunsIndexed(t: string)
    ensures RunsAtMost(t, ' ', 1) <==>
      forall i :: 0 <= i && i + 1 < |t| ==> !(t[i] == ' ' && t[i + 1] == ' ')
  {
    if RunsAtMost(t, ' ', 1) {
      forall i | 0 <= i && i + 1 < |t|
        ensures !(t[i] == ' ' && t[i + 1] == ' ')
      {
        LeadRunAtLeast(t[i..], ' ', 2);
      }
    } else {
      var i :| 0 <= i <= |t| && LeadRun(t[i..], ' ') > 1;
      LeadRunAtLeast(t[i..], ' ', 2);
      assert t[i..][0] == t[i] && t[i..][1] == t[i + 1];
    }
  }

  /** The cleaner's output never holds three newlines or two spaces in a
      row; the space collapse does not bring newlines together. */
  lemma FilterGarbageIsClean(s: string)
    ensures IsClean(FilterGarbage(s))
  {
    var v := Select(s, IsValidChar);
    var nl := CollapseRuns(v, '\n', 2);
    var r := CollapseRuns(nl, ' ', 1);
    CollapseBoundsRuns(v, '\n', 2);
    CollapseKeepsOtherRuns(nl, ' ', 1, '\n', 2);
    CollapseBoundsRuns(nl, ' ', 1);
    NewlineRunsIndexed(r);
    SpaceRunsIndexed(r);
  }

  /** The cleaner is the identity on clean text. */
  lemma FilterGarbageOnClean(t: string)
    requires IsClean(t)
    ensures FilterGarbage(t) == t
  {
    SelectAll(t, IsValidChar);
    NewlineRunsIndexed(t);
    SpaceRunsIndexed(t);
    CollapseIdentity(t, '\n', 2);
    CollapseIdentity(t, ' ', 1);
  }

  /** A text is a fixed point of the cleaner exactly when it is clean. */
  lemma FilterGarbageFixedPoints(t: string)
    ensures FilterGarbage(t) == t <==> IsClean(t)
  {
    FilterGarbageIsClean(t);
    if IsClean(t) {
      FilterGarbageOnClean(t);
    }
  }

  /** Cleaning twice is cleaning once. */
  lemma FilterGarbageIdempotent(s: string)
    ensures FilterGarbage(FilterGarbage(s)) == FilterGarbage(s)
  {
    FilterGarbageIsClean(s);
    FilterGarbageOnClean(FilterGarbage(s));
  }

  /** A character occurs in the output exactly when it occurs in the input and is allow-listed. */
  lemma FilterGarbageChars(s: string, ch: char)
    ensures ch in FilterGarbage(s) <==> ch in s && IsValidChar(ch)
  {
    var v := Select(s, IsValidChar);
    CollapseKeepsChars(v, '\n', 2, ch);
    CollapseKeepsChars(CollapseRuns(v, '\n', 2), ' ', 1, ch);
  }

  /** Neither a newline nor a space. */
  predicate IsNotBlank(c: char) { c != '\n' && c != ' ' }

  /** Allow-listed and neither a newline nor a space. */
  predicate IsVisibleChar(c: char) { IsValidChar(c) && IsNotBlank(c) }

  /** Apart from newlines and spaces, the output is exactly the
      allow-listed characters of the input in their original order:
      disallowed characters are dropped and nothing is reordered. */
  lemma FilterGarbageKeepsOrder(s: string)
    ensures Select(FilterGarbage(s), IsNotBlank) == Select(s, IsVisibleChar)
  {
    var v := Select(s, IsValidChar);
    var nl := CollapseRuns(v, '\n', 2);
    CollapseSelect(nl, ' ', 1, IsNotBlank);
    CollapseSelect(v, '\n', 2, IsNotBlank);
    SelectSelect(s, IsValidChar, IsNotBlank, IsVisibleChar);
  }
}
