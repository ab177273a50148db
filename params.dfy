/**
 * Parameter names of the sampler and `MCSampler.match_params_from_args`, which
 * decides whether a collection of basic names and tuple groups describes the
 * same parameters as another collection.
 */
module Params {

  /** A sampling dimension: a basic name, or a tuple of names sampled together. */
  datatype Param = Basic(name: string) | Group(names: seq<string>)

  /** No name occurs twice in the sequence. */
  predicate Distinct(t: seq<string>)
  {
    forall j, k :: 0 <= j < k < |t| ==> t[j] != t[k]
  }

  /** `set(args) ^ set(params)`. */
  function SymmetricDifference(a: set<Param>, b: set<Param>): (c: set<Param>)
  {
    (a - b) + (b - a)
  }

  /** The basic names of a collection (`to_match`). */
  function BasicNames(c: set<Param>): (names: set<string>)
    ensures forall n :: n in names <==> Basic(n) in c
  {
    set p | p in c && p.Basic? :: p.name
  }

  /** The tuple groups of a collection (`against`). */
  function Groups(c: set<Param>): (gs: set<Param>)
    ensures forall p :: p in gs <==> p in c && p.Group?
  {
    set p | p in c && p.Group?
  }

  // ---------------------------------------------------------------------------
  // itertools.permutations
  // ---------------------------------------------------------------------------

  /**
   * The tuples `itertools.permutations(to_match, i)` yields, as a set: ordered
   * selections of `i` different names of the pool.
   */
  function ArrangementsOf(pool: set<string>, i: nat): set<seq<string>>
    decreases i
  {
    if i == 0 then {[]}
    else set x, t | x in pool && t in ArrangementsOf(pool - {x}, i - 1) :: [x] + t
  }

  /** An arrangement of length `i` is exactly a duplicate-free sequence of `i` pool names. */
  lemma {:induction false} ArrangementsMembers(pool: set<string>, i: nat, t: seq<string>)
    ensures t in ArrangementsOf(pool, i)
            <==> |t| == i && Distinct(t) && forall j :: 0 <= j < |t| ==> t[j] in pool
    decreases i
  {
    if i == 0 {
    } else if t == [] {
      assert t !in ArrangementsOf(pool, i);
    } else {
      var x, rest := t[0], t[1..];
      assert t == [x] + rest;
      ArrangementsMembers(pool - {x}, i - 1, rest);
      if t in ArrangementsOf(pool, i) {
        var x', rest' :| x' in pool && rest' in ArrangementsOf(pool - {x'}, i - 1) && [x'] + rest' == t;
        assert x' == x && rest' == rest by {
          assert ([x'] + rest')[0] == x' && ([x'] + rest')[1..] == rest';
        }
        forall j, k | 0 <= j < k < |t|
          ensures t[j] != t[k]
        {
          if j > 0 {
            assert t[j] == rest[j - 1] && t[k] == rest[k - 1];
          } else {
            assert t[k] == rest[k - 1];
          }
        }
      }
      if |t| == i && Distinct(t) && forall j :: 0 <= j < |t| ==> t[j] in pool {
        forall j | 0 <= j < |rest|
          ensures rest[j] in pool - {x}
        {
          assert rest[j] == t[j + 1];
        }
        forall j, k | 0 <= j < k < |rest|
          ensures rest[j] != rest[k]
        {
          assert rest[j] == t[j + 1] && rest[k] == t[k + 1];
        }
        assert t[0] in pool;
      }
    }
  }

  // ---------------------------------------------------------------------------
  // match_params_from_args, as written
  // ---------------------------------------------------------------------------

  /** `max(list(map(len, against)))`: the longest group of a collection. */
  ghost function MaxLength(gs: set<Param>): (m: nat)
    ensures forall g :: g in gs && g.Group? ==> |g.names| <= m
    ensures gs != {} && (forall g :: g in gs ==> g.Group?) ==> exists g :: g in gs && |g.names| == m
  {
    if gs == {} then 0
    else
      var g :| g in gs;
      var len := if g.Group? then |g.names| else 0;
      var m := MaxLength(gs - {g});
      if len >= m then len else m
  }

  /**
   * The groups found among the arrangements of lengths `2 .. max(len)` of the
   * unmatched basic names (the `matched` list, as a set).
   */
  ghost function Matched(toMatch: set<string>, against: set<Param>): set<Param>
  {
    set i, t | 2 <= i <= MaxLength(against) && t in ArrangementsOf(toMatch, i) && Group(t) in against
      :: Group(t)
  }

  /**
   * `match_params_from_args(args, params)` as written: true when the two
   * collections are equal; false when they differ only in basic names;
   * otherwise true exactly when every differing group is an arrangement of
   * two or more of the differing basic names.
   */
  ghost function MatchParamsFromArgs(args: set<Param>, params: set<Param>): bool
  {
    var notCommon := SymmetricDifference(args, params);
    if notCommon == {} then true
    else if forall p :: p in notCommon ==> p.Basic? then false
    else
      var toMatch, against := BasicNames(notCommon), Groups(notCommon);
      Matched(toMatch, against) == against
  }

  /** A group of two or more different names of `toMatch` is matched, and only those are. */
  lemma MatchedMembers(toMatch: set<string>, against: set<Param>, p: Param)
    requires forall q :: q in against ==> q.Group?
    ensures p in Matched(toMatch, against)
            <==> p in against && 2 <= |p.names| && Distinct(p.names)
                 && forall j :: 0 <= j < |p.names| ==> p.names[j] in toMatch
  {
    if p in Matched(toMatch, against) {
      var i, t :| 2 <= i <= MaxLength(against) && t in ArrangementsOf(toMatch, i) && Group(t) in against
                  && Group(t) == p;
      ArrangementsMembers(toMatch, i, t);
    }
    if p in against && 2 <= |p.names| && Distinct(p.names)
       && forall j :: 0 <= j < |p.names| ==> p.names[j] in toMatch {
      ArrangementsMembers(toMatch, |p.names|, p.names);
      assert Group(p.names) == p;
    }
  }

  /** A differing group counts as matched exactly when it is an arrangement of differing basic names. */
  lemma MatchCharacterization(args: set<Param>, params: set<Param>)
    ensures var nc := SymmetricDifference(args, params);
      MatchParamsFromArgs(args, params)
      <==> nc == {}
           || ((exists p :: p in nc && p.Group?)
               && forall g :: g in nc && g.Group? ==>
                    2 <= |g.names| && Distinct(g.names)
                    && forall j :: 0 <= j < |g.names| ==> Basic(g.names[j]) in nc)
  {
    var nc := SymmetricDifference(args, params);
    if nc != {} && exists p :: p in nc && p.Group? {
      var toMatch, against := BasicNames(nc), Groups(nc);
      forall p
        ensures p in Matched(toMatch, against)
                <==> p in against && 2 <= |p.names| && Distinct(p.names)
                     && forall j :: 0 <= j < |p.names| ==> p.names[j] in toMatch
      {
        MatchedMembers(toMatch, against, p);
      }
      if Matched(toMatch, against) == against {
        forall g | g in nc && g.Group?
          ensures 2 <= |g.names| && Distinct(g.names)
          ensures forall j :: 0 <= j < |g.names| ==> Basic(g.names[j]) in nc
        {
          assert g in against;
        }
      }
    }
  }

  /** Identical collections match. */
  lemma MatchIdentical(args: set<Param>)
    ensures MatchParamsFromArgs(args, args)
  {
    assert SymmetricDifference(args, args) == {};
  }

  /** Collections that differ only in basic names never match. */
  lemma MatchOnlyBasicsDiffer(args: set<Param>, params: set<Param>)
    requires args != params
    requires forall p :: p in SymmetricDifference(args, params) ==> p.Basic?
    ensures !MatchParamsFromArgs(args, params)
  {
    var p :| (p in args) != (p in params);
    assert p in SymmetricDifference(args, params);
  }

  /** A group of one name is never matched: the arrangements start at length 2. */
  lemma MatchSingletonGroup(args: set<Param>, params: set<Param>, n: string)
    requires Group([n]) in SymmetricDifference(args, params)
    ensures !MatchParamsFromArgs(args, params)
  {
    MatchCharacterization(args, params);
  }

  // ---------------------------------------------------------------------------
  // The documented intent
  // ---------------------------------------------------------------------------

  /** The names a parameter stands for. */
  function NamesOf(p: Param): (ns: set<string>)
    ensures p.Basic? ==> ns == {p.name}
    ensures p.Group? ==> forall n :: n in ns <==> n in p.names
  {
    match p
    case Basic(n) => {n}
    case Group(names) => set j | 0 <= j < |names| :: names[j]
  }

  /** Every name a collection stands for. */
  function AllNames(c: set<Param>): (ns: set<string>)
    ensures forall n :: n in ns <==> exists p :: p in c && n in NamesOf(p)
  {
    set p, n | p in c && n in NamesOf(p) :: n
  }

  /** No basic name is repeated: within a group or across two entries. */
  predicate NoRepeats(c: set<Param>)
  {
    && (forall p :: p in c && p.Group? ==> Distinct(p.names))
    && (forall p, q, n :: p in c && q in c && p != q && n in NamesOf(p) ==> n !in NamesOf(q))
  }

  /**
   * The documented meaning: the collections are equivalent when, with no name
   * repeated, they stand for the same names.
   */
  predicate MatchParamsIntended(args: set<Param>, params: set<Param>)
  {
    NoRepeats(args) && NoRepeats(params) && AllNames(args) == AllNames(params)
  }

  /** Equivalent collections stand for the same names, entry by entry. */
  lemma IntendedSameNames(args: set<Param>, params: set<Param>)
    requires MatchParamsIntended(args, params)
    ensures forall p, n :: p in args && n in NamesOf(p) ==> exists q :: q in params && n in NamesOf(q)
    ensures forall q, n :: q in params && n in NamesOf(q) ==> exists p :: p in args && n in NamesOf(p)
  {
    forall p, n | p in args && n in NamesOf(p)
      ensures exists q :: q in params && n in NamesOf(q)
    {
      assert n in AllNames(args);
    }
    forall q, n | q in params && n in NamesOf(q)
      ensures exists p :: p in args && n in NamesOf(p)
    {
      assert n in AllNames(params);
    }
  }

  /** Equivalence is symmetric. */
  lemma IntendedSymmetric(args: set<Param>, params: set<Param>)
    ensures MatchParamsIntended(args, params) == MatchParamsIntended(params, args)
  {
  }

  /** A name one side stands for and the other does not rules the match out. */
  lemma IntendedMissingName(args: set<Param>, params: set<Param>, p: Param, n: string)
    requires p in args && n in NamesOf(p) && n !in AllNames(params)
    ensures !MatchParamsIntended(args, params)
  {
    assert n in AllNames(args);
  }

  // ---------------------------------------------------------------------------
  // The four documented examples
  // ---------------------------------------------------------------------------

  function ABC(): set<Param>
  {
    {Basic("a"), Basic("b"), Basic("c")}
  }

  /** Second example: a single group of all three names against the three names. */
  lemma ExampleWholeGroup()
    ensures MatchParamsFromArgs({Group(["a", "b", "c"])}, ABC())
  {
    var g := Group(["a", "b", "c"]);
    var nc := SymmetricDifference({g}, ABC());
    assert nc == {g, Basic("a"), Basic("b"), Basic("c")};
    MatchCharacterization({g}, ABC());
    assert Distinct(g.names);
    assert forall j :: 0 <= j < |g.names| ==> Basic(g.names[j]) in nc;
  }

  /** Third example: the group `(a, b)` with `d` against `a, b, c`. */
  lemma ExamplePairAndStray()
    ensures MatchParamsFromArgs({Group(["a", "b"]), Basic("d")}, ABC())
  {
    var g := Group(["a", "b"]);
    var nc := SymmetricDifference({g, Basic("d")}, ABC());
    assert nc == {g, Basic("d"), Basic("a"), Basic("b"), Basic("c")};
    MatchCharacterization({g, Basic("d")}, ABC());
    assert Distinct(g.names);
    assert forall j :: 0 <= j < |g.names| ==> Basic(g.names[j]) in nc;
  }

  /** Fourth example: the group `(a, b)` with `d` against `a, b, d, c`. */
  lemma ExamplePairAndCommon()
    ensures MatchParamsFromArgs({Group(["a", "b"]), Basic("d")}, {Basic("a"), Basic("b"), Basic("d"), Basic("c")})
  {
    var g := Group(["a", "b"]);
    var params := {Basic("a"), Basic("b"), Basic("d"), Basic("c")};
    var nc := SymmetricDifference({g, Basic("d")}, params);
    assert nc == {g, Basic("a"), Basic("b"), Basic("c")};
    MatchCharacterization({g, Basic("d")}, params);
    assert Distinct(g.names);
    assert forall j :: 0 <= j < |g.names| ==> Basic(g.names[j]) in nc;
  }

  /**
   * The code agrees with the first two documented examples and answers true
   * to the last two, which the documentation answers false.
   */
  lemma DocstringExamplesAsWritten()
    ensures MatchParamsFromArgs(ABC(), ABC())
    ensures MatchParamsFromArgs({Group(["a", "b", "c"])}, ABC())
    ensures MatchParamsFromArgs({Group(["a", "b"]), Basic("d")}, ABC())
    ensures MatchParamsFromArgs({Group(["a", "b"]), Basic("d")}, {Basic("a"), Basic("b"), Basic("d"), Basic("c")})
  {
    MatchIdentical(ABC());
    ExampleWholeGroup();
    ExamplePairAndStray();
    ExamplePairAndCommon();
  }

  /** The documented intent gives the documented answers to all four examples. */
  lemma DocstringExamplesIntended()
    ensures MatchParamsIntended(ABC(), ABC())
    ensures MatchParamsIntended({Group(["a", "b", "c"])}, ABC())
    ensures !MatchParamsIntended({Group(["a", "b"]), Basic("d")}, ABC())
    ensures !MatchParamsIntended({Group(["a", "b"]), Basic("d")}, {Basic("a"), Basic("b"), Basic("d"), Basic("c")})
  {
    AbcNames();
    WholeGroupNames();
    IntendedMissingName({Group(["a", "b"]), Basic("d")}, ABC(), Basic("d"), "d");
    IntendedMissingName({Basic("a"), Basic("b"), Basic("d"), Basic("c")}, {Group(["a", "b"]), Basic("d")},
                        Basic("c"), "c");
    IntendedSymmetric({Group(["a", "b"]), Basic("d")}, {Basic("a"), Basic("b"), Basic("d"), Basic("c")});
  }

  lemma AbcNames()
    ensures NoRepeats(ABC()) && AllNames(ABC()) == {"a", "b", "c"}
  {
    assert forall p :: p in ABC() ==> NamesOf(p) == {p.name};
  }

  lemma WholeGroupNames()
    ensures NoRepeats({Group(["a", "b", "c"])}) && AllNames({Group(["a", "b", "c"])}) == {"a", "b", "c"}
  {
    var t := ["a", "b", "c"];
    assert t[0] == "a" && t[1] == "b" && t[2] == "c";
    assert NamesOf(Group(t)) == {"a", "b", "c"};
    assert Distinct(t);
  }
}
