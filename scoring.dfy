/** The set-based scorer: true and false positives and negatives as sets,
    and precision, recall and F1 as ratios of their sizes, each defined as 0
    where its denominator is 0. */
module Scoring {
  import opened Records

  /** `set(xs)`: the distinct elements of a list. */
  function AsSet<T(==,!new)>(xs: seq<T>): (r: set<T>)
    ensures forall x :: x in r <==> x in xs
  {
    set x | x in xs
  }

  /** A list with no element twice. */
  predicate Distinct<T(==)>(xs: seq<T>)
  {
    forall i, j :: 0 <= i < j < |xs| ==> xs[i] != xs[j]
  }

  lemma {:induction false} SubsetCard<T>(a: set<T>, b: set<T>)
    requires a <= b
    ensures |a| <= |b|
    decreases |a|
  {
    if a != {} {
      var x :| x in a;
      SubsetCard(a - {x}, b - {x});
    }
  }

  /** A list has at least as many entries as distinct elements, and exactly
      as many when no element repeats. */
  lemma {:induction false} AsSetCard<T(!new)>(xs: seq<T>)
    ensures |AsSet(xs)| <= |xs|
    ensures Distinct(xs) ==> |AsSet(xs)| == |xs|
  {
    if |xs| > 0 {
      var init := xs[..|xs| - 1];
      var x := xs[|xs| - 1];
      AsSetCard(init);
      assert AsSet(xs) == AsSet(init) + {x};
      if Distinct(xs) {
        assert Distinct(init);
        assert x !in AsSet(init) by {
          forall i | 0 <= i < |init| ensures init[i] != x {
            assert xs[i] != xs[|xs| - 1];
          }
        }
      }
    }
  }

  /** `get_correct` (and `get_tp`): the elements both lists contain. */
  function GetCorrect<T(==,!new)>(gold: seq<T>, guess: seq<T>): (r: set<T>)
    ensures forall x :: x in r <==> x in gold && x in guess
  {
    AsSet(gold) * AsSet(guess)
  }

  /** `get_fn`: what the gold list has and the guesses miss. */
  function GetFn<T(==,!new)>(gold: seq<T>, guess: seq<T>): (r: set<T>)
    ensures forall x :: x in r <==> x in gold && x !in guess
  {
    AsSet(gold) - AsSet(guess)
  }

  /** `get_fp`: what is guessed but not in the gold list. */
  function GetFp<T(==,!new)>(gold: seq<T>, guess: seq<T>): (r: set<T>)
    ensures forall x :: x in r <==> x in guess && x !in gold
  {
    AsSet(guess) - AsSet(gold)
  }

  /** `get_tn`: what remains of the whole population once the positives and
      the misses are taken out. */
  function GetTn<T(==,!new)>(tp: set<T>, fp: set<T>, fn: set<T>, all: set<T>): (r: set<T>)
    ensures forall x :: x in r <==> x in all && x !in tp && x !in fp && x !in fn
  {
    all - tp - fp - fn
  }

  /** The four sets of a confusion table. */
  datatype Confusion<T> = Confusion(tp: set<T>, fp: set<T>, fn: set<T>, tn: set<T>)

  /** The three positive and negative sets are pairwise disjoint, true
      negatives avoid all three and lie in the population, and `tp` with `fn`
      makes up the gold set, `tp` with `fp` the guessed one. */
  predicate WellSplit<T(==,!new)>(c: Confusion<T>, gold: set<T>, guess: set<T>, all: set<T>)
  {
    && c.tp * c.fp == {} && c.tp * c.fn == {} && c.fp * c.fn == {}
    && c.tp + c.fn == gold && c.tp + c.fp == guess
    && c.tn * (c.tp + c.fp + c.fn) == {} && c.tn <= all
  }

  /** `get_tp_fp_fn_tn`. */
  function GetTpFpFnTn<T(==,!new)>(gold: seq<T>, guess: seq<T>, all: seq<T>): (r: Confusion<T>)
    ensures WellSplit(r, AsSet(gold), AsSet(guess), AsSet(all))
    ensures r.tn == AsSet(all) - AsSet(gold) - AsSet(guess)
  {
    var tp := GetCorrect(gold, guess);
    var fp := GetFp(gold, guess);
    var fn := GetFn(gold, guess);
    Confusion(tp, fp, fn, GetTn(tp, fp, fn, AsSet(all)))
  }

  /** `get_phrases`: the word tuples of some entities. */
  function GetPhrases(es: set<Entity>): (r: set<seq<string>>)
    ensures forall p :: p in r <==> exists e :: e in es && e.words == p
  {
    set e | e in es :: e.words
  }

  /** `get_phrases_and_tags`: the (word tuple, type) pairs of some entities. */
  function GetPhrasesAndTags(es: set<Entity>): (r: set<(seq<string>, string)>)
    ensures forall p :: p in r <==> exists e :: e in es && (e.words, e.tag) == p
  {
    set e | e in es :: (e.words, e.tag)
  }

  lemma {:induction false} PhrasesAndTagsCard(es: set<Entity>)
    ensures |GetPhrasesAndTags(es)| <= |es|
    decreases |es|
  {
    if es != {} {
      var e :| e in es;
      PhrasesAndTagsCard(es - {e});
      assert GetPhrasesAndTags(es) <= GetPhrasesAndTags(es - {e}) + {(e.words, e.tag)};
      SubsetCard(GetPhrasesAndTags(es), GetPhrasesAndTags(es - {e}) + {(e.words, e.tag)});
    }
  }

  lemma {:induction false} PhrasesAndTagsMono(a: set<Entity>, b: set<Entity>)
    requires a <= b
    ensures GetPhrasesAndTags(a) <= GetPhrasesAndTags(b)
    ensures |GetPhrasesAndTags(a)| <= |GetPhrasesAndTags(b)|
  {
    SubsetCard(GetPhrasesAndTags(a), GetPhrasesAndTags(b));
  }

  /** `get_tp_fp_fn_tn_phrases`: the confusion table over word tuples, where
      the true positives are the word tuples of the entities matched at the
      same place with the same type. Its `fp` and `fn` need not be disjoint:
      see `PhrasesFpFnOverlap`. */
  function GetTpFpFnTnPhrases(gold: seq<Entity>, guess: seq<Entity>, all: seq<Entity>): (r: Confusion<seq<string>>)
    ensures forall p :: p in r.tp <==> exists e :: e in gold && e in guess && e.words == p
    ensures r.tp + r.fp == GetPhrases(AsSet(guess)) && r.tp * r.fp == {}
    ensures r.tp + r.fn == GetPhrases(AsSet(gold)) && r.tp * r.fn == {}
    ensures r.tn == GetPhrases(AsSet(all)) - GetPhrases(AsSet(gold)) - GetPhrases(AsSet(guess))
  {
    var tp := GetPhrases(GetCorrect(gold, guess));
    var fp := GetPhrases(AsSet(guess)) - tp;
    var fn := GetPhrases(AsSet(gold)) - tp;
    Confusion(tp, fp, fn, GetTn(tp, fp, fn, GetPhrases(AsSet(all))))
  }

  /** The same word tuple at different places in the gold and guessed lists
      counts as both a false positive and a false negative. */
  lemma {:induction false} PhrasesFpFnOverlap()
    ensures var gold := [Entity(["x"], 0, 0, 1, "person")];
      var guess := [Entity(["x"], 1, 0, 1, "person")];
      var c := GetTpFpFnTnPhrases(gold, guess, gold + guess);
      ["x"] in c.fp * c.fn
  {
    var gold := [Entity(["x"], 0, 0, 1, "person")];
    var guess := [Entity(["x"], 1, 0, 1, "person")];
    assert GetCorrect(gold, guess) == {};
    assert gold[0] in AsSet(gold) && guess[0] in AsSet(guess);
  }

  /** A result row: the three counts and the three scores. */
  datatype Results = Results(gold: nat, guess: nat, correct: nat, p: real, r: real, f: real)

  /** `n / d`, or 0 when `d` is 0. */
  function Ratio(n: nat, d: nat): (q: real)
    ensures d == 0 ==> q == 0.0
    ensures d > 0 ==> q * d as real == n as real
    ensures n <= d ==> 0.0 <= q <= 1.0
  {
    if d == 0 then 0.0 else n as real / d as real
  }

  lemma {:induction false} RatioSelf(n: nat)
    requires n > 0
    ensures Ratio(n, n) == 1.0
  {
  }

  /** `2pr / (p + r)`, or 0 when `p + r` is 0. */
  function FScore(p: real, r: real): (f: real)
    ensures p + r == 0.0 ==> f == 0.0
    ensures p + r != 0.0 ==> f * (p + r) == 2.0 * p * r
  {
    if p + r == 0.0 then 0.0 else 2.0 * p * r / (p + r)
  }

  lemma {:induction false} CancelPositive(a: real, b: real, c: real)
    requires c > 0.0 && a * c <= b * c
    ensures a <= b
  {
  }

  /** For a <= b, a(a + b) and b(a + b) lie a(b - a) below and b(b - a)
      above 2ab. */
  lemma {:induction false} MeanGap(a: real, b: real, f: real)
    requires 0.0 <= a <= b && a + b > 0.0 && f * (a + b) == 2.0 * a * b
    ensures a * (a + b) <= f * (a + b) <= b * (a + b)
  {
    assert a * (a + b) == a * a + a * b;
    assert b * (a + b) == a * b + b * b;
    assert 0.0 <= a * (b - a) == a * b - a * a;
    assert 0.0 <= b * (b - a) == b * b - a * b;
  }

  /** Any f with f(p + r) = 2pr lies between p and r. */
  lemma {:induction false} MeanBetween(p: real, r: real, f: real)
    requires 0.0 <= p <= r && p + r > 0.0 && f * (p + r) == 2.0 * p * r
    ensures p <= f <= r
  {
    MeanGap(p, r, f);
    CancelPositive(p, f, p + r);
    CancelPositive(f, r, p + r);
  }

  /** F1 is a mean of precision and recall: it lies between them, and so
      within [0, 1] when they do. */
  lemma {:induction false} FScoreBetween(p: real, r: real)
    requires 0.0 <= p && 0.0 <= r && p + r > 0.0
    ensures p <= r ==> p <= FScore(p, r) <= r
    ensures r <= p ==> r <= FScore(p, r) <= p
  {
    var f := FScore(p, r);
    if p <= r {
      MeanBetween(p, r, f);
    } else {
      assert f * (r + p) == 2.0 * r * p;
      MeanBetween(r, p, f);
    }
  }

  lemma {:induction false} FScoreBounds(p: real, r: real)
    requires 0.0 <= p <= 1.0 && 0.0 <= r <= 1.0
    ensures 0.0 <= FScore(p, r) <= 1.0
    ensures p == 1.0 && r == 1.0 ==> FScore(p, r) == 1.0
  {
    if p + r > 0.0 {
      FScoreBetween(p, r);
    }
  }

  /** The scores of a result row follow from its counts. */
  predicate Scored(res: Results)
  {
    && res.p == Ratio(res.correct, res.guess)
    && res.r == Ratio(res.correct, res.gold)
    && res.f == FScore(res.p, res.r)
  }

  /** Counts and scores within their ranges: no more correct than gold or
      guessed, and every score in [0, 1]. */
  predicate Bounded(res: Results)
  {
    && res.correct <= res.gold && res.correct <= res.guess
    && 0.0 <= res.p <= 1.0 && 0.0 <= res.r <= 1.0 && 0.0 <= res.f <= 1.0
  }

  /** The tail of `calc_results`: the scores of three counts. */
  function MakeResults(gold: nat, guess: nat, correct: nat): (res: Results)
    requires correct <= gold && correct <= guess
    ensures Scored(res)
    ensures 0.0 <= res.p <= 1.0 && 0.0 <= res.r <= 1.0 && 0.0 <= res.f <= 1.0
    ensures res.gold == gold && res.guess == guess && res.correct == correct
  {
    var p := Ratio(correct, guess);
    var r := Ratio(correct, gold);
    FScoreBounds(p, r);
    Results(gold, guess, correct, p, r, FScore(p, r))
  }

  /** `calc_results` without surface forms: list lengths against the number
      of distinct elements both lists share. */
  function ExactResults<T(==,!new)>(gold: seq<T>, guess: seq<T>): (res: Results)
    ensures Scored(res)
    ensures res.gold == |gold| && res.guess == |guess|
    ensures res.correct == |AsSet(gold) * AsSet(guess)|
    ensures res.correct <= res.gold && res.correct <= res.guess
    ensures 0.0 <= res.p <= 1.0 && 0.0 <= res.r <= 1.0 && 0.0 <= res.f <= 1.0
  {
    var correct := GetCorrect(gold, guess);
    SubsetCard(correct, AsSet(gold));
    SubsetCard(correct, AsSet(guess));
    AsSetCard(gold);
    AsSetCard(guess);
    MakeResults(|gold|, |guess|, |correct|)
  }

  /** `calc_results` on surface forms: distinct (word tuple, type) pairs, the
      correct ones being those of the entities matched at the same place. */
  function SurfaceResults(gold: seq<Entity>, guess: seq<Entity>): (res: Results)
    ensures Scored(res)
    ensures res.gold == |GetPhrasesAndTags(AsSet(gold))| && res.guess == |GetPhrasesAndTags(AsSet(guess))|
    ensures res.correct == |GetPhrasesAndTags(AsSet(gold) * AsSet(guess))|
    ensures res.correct <= res.gold && res.correct <= res.guess
    ensures 0.0 <= res.p <= 1.0 && 0.0 <= res.r <= 1.0 && 0.0 <= res.f <= 1.0
  {
    var correct := GetCorrect(gold, guess);
    PhrasesAndTagsMono(correct, AsSet(gold));
    PhrasesAndTagsMono(correct, AsSet(guess));
    MakeResults(|GetPhrasesAndTags(AsSet(gold))|, |GetPhrasesAndTags(AsSet(guess))|, |GetPhrasesAndTags(correct)|)
  }

  /** `res` is what `calc_results` reports without surface forms: the list
      lengths, the number of distinct elements both lists have, and the
      scores of those counts. */
  predicate ExactScores<T(==,!new)>(res: Results, gold: seq<T>, guess: seq<T>)
  {
    && Scored(res)
    && res.gold == |gold| && res.guess == |guess|
    && res.correct == |AsSet(gold) * AsSet(guess)|
  }

  /** `res` is what `calc_results` reports on surface forms: the numbers of
      distinct (word tuple, type) pairs of each list and of the entities both
      lists have, and the scores of those counts. */
  predicate SurfaceScores(res: Results, gold: seq<Entity>, guess: seq<Entity>)
  {
    && Scored(res)
    && res.gold == |GetPhrasesAndTags(AsSet(gold))| && res.guess == |GetPhrasesAndTags(AsSet(guess))|
    && res.correct == |GetPhrasesAndTags(AsSet(gold) * AsSet(guess))|
  }

  /** `res` is what `calc_results` reports in the given mode. */
  predicate ScoresOf(res: Results, gold: seq<Entity>, guess: seq<Entity>, surfaceForm: bool)
  {
    if surfaceForm then SurfaceScores(res, gold, guess) else ExactScores(res, gold, guess)
  }

  /** The counts and scores of a mode leave nothing open: one result row
      fits them. */
  lemma {:induction false} ScoresDetermined(a: Results, b: Results, gold: seq<Entity>, guess: seq<Entity>, surfaceForm: bool)
    requires ScoresOf(a, gold, guess, surfaceForm) && ScoresOf(b, gold, guess, surfaceForm)
    ensures a == b
  {
  }

  /** `calc_results`. */
  function CalcResults(gold: seq<Entity>, guess: seq<Entity>, surfaceForm: bool): (res: Results)
    ensures ScoresOf(res, gold, guess, surfaceForm)
    ensures res.correct <= res.gold && res.correct <= res.guess
    ensures 0.0 <= res.p <= 1.0 && 0.0 <= res.r <= 1.0 && 0.0 <= res.f <= 1.0
    ensures !surfaceForm ==> res.gold == |gold| && res.guess == |guess|
    ensures surfaceForm ==> res.gold <= |gold| && res.guess <= |guess|
  {
    if surfaceForm then
      PhrasesAndTagsCard(AsSet(gold));
      PhrasesAndTagsCard(AsSet(guess));
      AsSetCard(gold);
      AsSetCard(guess);
      SurfaceResults(gold, guess)
    else ExactResults(gold, guess)
  }

  /** Scoring a duplicate-free, non-empty list against itself gives perfect
      precision, recall and F1. */
  lemma {:induction false} ExactIdentical<T(!new)>(xs: seq<T>)
    requires |xs| > 0 && Distinct(xs)
    ensures var res := ExactResults(xs, xs);
      res.p == 1.0 && res.r == 1.0 && res.f == 1.0
  {
    AsSetCard(xs);
    assert AsSet(xs) * AsSet(xs) == AsSet(xs);
    RatioSelf(|xs|);
    FScoreBounds(1.0, 1.0);
  }

  /** Without distinctness it fails: a repeated element is counted twice in
      the list lengths but once among the correct ones. */
  lemma {:induction false} ExactDuplicate<T(!new)>(x: T)
    ensures ExactResults([x, x], [x, x]).p == 0.5
  {
    assert AsSet([x, x]) == {x};
  }

  /** On surface forms, any non-empty list scored against itself is perfect. */
  lemma {:induction false} SurfaceIdentical(es: seq<Entity>)
    requires |es| > 0
    ensures var res := CalcResults(es, es, true);
      res.p == 1.0 && res.r == 1.0 && res.f == 1.0
  {
    assert AsSet(es) * AsSet(es) == AsSet(es);
    assert es[0] in AsSet(es);
    assert (es[0].words, es[0].tag) in GetPhrasesAndTags(AsSet(es));
    RatioSelf(|GetPhrasesAndTags(AsSet(es))|);
    FScoreBounds(1.0, 1.0);
  }

  /** The correct surface forms are surface forms both lists have ... */
  lemma {:induction false} SurfaceCorrectShared(gold: seq<Entity>, guess: seq<Entity>)
    ensures GetPhrasesAndTags(AsSet(gold) * AsSet(guess))
      <= GetPhrasesAndTags(AsSet(gold)) * GetPhrasesAndTags(AsSet(guess))
  {
    PhrasesAndTagsMono(AsSet(gold) * AsSet(guess), AsSet(gold));
    PhrasesAndTagsMono(AsSet(gold) * AsSet(guess), AsSet(guess));
  }

  /** ... but not every shared surface form is correct: the entities must
      also match in sentence and position. */
  lemma {:induction false} SurfaceCorrectNotShared()
    ensures var gold := [Entity(["x"], 0, 0, 1, "person")];
      var guess := [Entity(["x"], 1, 0, 1, "person")];
      CalcResults(gold, guess, true).correct == 0
      && (["x"], "person") in GetPhrasesAndTags(AsSet(gold)) * GetPhrasesAndTags(AsSet(guess))
  {
    var gold := [Entity(["x"], 0, 0, 1, "person")];
    var guess := [Entity(["x"], 1, 0, 1, "person")];
    assert AsSet(gold) * AsSet(guess) == {};
    assert gold[0] in AsSet(gold) && guess[0] in AsSet(guess);
  }

  /** Scores depend on the lists only through their lengths and elements,
      so reordering both lists (as reordering the sentences of a document
      does) changes nothing. */
  lemma {:induction false} CalcResultsPermuted(gold: seq<Entity>, gold': seq<Entity>, guess: seq<Entity>, guess': seq<Entity>, surfaceForm: bool)
    requires multiset(gold) == multiset(gold') && multiset(guess) == multiset(guess')
    ensures CalcResults(gold', guess', surfaceForm) == CalcResults(gold, guess, surfaceForm)
  {
    assert |gold| == |multiset(gold)| == |gold'|;
    assert |guess| == |multiset(guess)| == |guess'|;
    assert AsSet(gold) == AsSet(gold') by {
      forall e ensures e in gold <==> e in gold' {
        assert e in gold <==> e in multiset(gold);
        assert e in gold' <==> e in multiset(gold');
      }
    }
    assert AsSet(guess) == AsSet(guess') by {
      forall e ensures e in guess <==> e in guess' {
        assert e in guess <==> e in multiset(guess);
        assert e in guess' <==> e in multiset(guess');
      }
    }
    ScoresDetermined(CalcResults(gold', guess', surfaceForm), CalcResults(gold, guess, surfaceForm), gold, guess, surfaceForm);
  }

  /** No two sentence numbers are sent to the same one. */
  ghost predicate Injective(ren: int -> int)
  {
    forall a, b :: ren(a) == ren(b) ==> a == b
  }

  /** Entities moved to other sentence numbers. */
  function Renumbered(es: seq<Entity>, ren: int -> int): (r: seq<Entity>)
    ensures |r| == |es|
    ensures forall i :: 0 <= i < |es| ==> r[i] == es[i].(sentId := ren(es[i].sentId))
  {
    seq(|es|, i requires 0 <= i < |es| => es[i].(sentId := ren(es[i].sentId)))
  }

  /** The entities of a set moved to other sentence numbers. */
  function Moved(s: set<Entity>, ren: int -> int): set<Entity>
  {
    set e | e in s :: e.(sentId := ren(e.sentId))
  }

  lemma {:induction false} MovedAsSet(es: seq<Entity>, ren: int -> int)
    ensures AsSet(Renumbered(es, ren)) == Moved(AsSet(es), ren)
  {
    var r := Renumbered(es, ren);
    forall x | x in Moved(AsSet(es), ren) ensures x in r {
      var e :| e in es && x == e.(sentId := ren(e.sentId));
      var i :| 0 <= i < |es| && es[i] == e;
      assert r[i] == x;
    }
  }

  /** An injective renumbering keeps exactly the entities two sets share. */
  lemma {:induction false} MovedMeet(a: set<Entity>, b: set<Entity>, ren: int -> int)
    requires Injective(ren)
    ensures Moved(a * b, ren) == Moved(a, ren) * Moved(b, ren)
  {
    forall x | x in Moved(a, ren) * Moved(b, ren) ensures x in Moved(a * b, ren) {
      var e :| e in a && x == e.(sentId := ren(e.sentId));
      var f :| f in b && x == f.(sentId := ren(f.sentId));
      assert ren(e.sentId) == ren(f.sentId);
      assert e == f;
    }
  }

  /** An injective renumbering keeps the number of entities of a set. */
  lemma {:induction false} MovedCard(s: set<Entity>, ren: int -> int)
    requires Injective(ren)
    ensures |Moved(s, ren)| == |s|
    decreases |s|
  {
    if s != {} {
      var e :| e in s;
      var x := e.(sentId := ren(e.sentId));
      MovedCard(s - {e}, ren);
      assert Moved(s, ren) == Moved(s - {e}, ren) + {x};
      assert x !in Moved(s - {e}, ren);
    }
  }

  /** Renumbering leaves the surface forms of a set alone. */
  lemma {:induction false} MovedSurface(s: set<Entity>, ren: int -> int)
    ensures GetPhrasesAndTags(Moved(s, ren)) == GetPhrasesAndTags(s)
  {
    forall p | p in GetPhrasesAndTags(s) ensures p in GetPhrasesAndTags(Moved(s, ren)) {
      var e :| e in s && (e.words, e.tag) == p;
      assert e.(sentId := ren(e.sentId)) in Moved(s, ren);
    }
  }

  /** Numbering the sentences of gold and guesses alike in another way, with
      no two sentences given one number, changes no count and no score, in
      either mode: which sentence an entity sits in matters only through
      whether the gold and guessed entities agree on it. */
  lemma {:induction false} CalcResultsRenumbered(gold: seq<Entity>, guess: seq<Entity>, ren: int -> int, surfaceForm: bool)
    requires Injective(ren)
    ensures CalcResults(Renumbered(gold, ren), Renumbered(guess, ren), surfaceForm) == CalcResults(gold, guess, surfaceForm)
  {
    var a, b := AsSet(gold), AsSet(guess);
    MovedAsSet(gold, ren);
    MovedAsSet(guess, ren);
    MovedMeet(a, b, ren);
    if surfaceForm {
      MovedSurface(a, ren);
      MovedSurface(b, ren);
      MovedSurface(a * b, ren);
    } else {
      MovedCard(a * b, ren);
    }
    ScoresDetermined(CalcResults(Renumbered(gold, ren), Renumbered(guess, ren), surfaceForm), CalcResults(gold, guess, surfaceForm), gold, guess, surfaceForm);
  }
}
