/**
 * The four-way split of the published charms: new (revision 0) or updated
 * (any other revision, or none at all), each either promulgated or from the
 * community. Every filter walks the dictionary's keys in the dictionary's
 * own iteration order, which Python 2 leaves unspecified; here that order
 * is a parameter, one sequence holding each key once, shared by all four.
 */
module Classify {
  import opened Wrappers
  import opened Charms

  predicate Distinct(s: seq<string>)
  {
    forall i, j :: 0 <= i < j < |s| ==> s[i] != s[j]
  }

  /** `order` lists the keys of `charms` the way iterating the dictionary does: each key once. */
  predicate IsIterationOrder(order: seq<string>, charms: map<string, CharmInfo>)
  {
    Distinct(order) && (forall k :: k in charms ==> k in order) && (forall k :: k in order ==> k in charms)
  }

  /** Python's `revision == 0`: false for an id whose revision did not parse. */
  predicate IsNew(info: CharmInfo)
  {
    info.revision == Some(0)
  }

  /** The test a filter applies to one charm. */
  predicate Keeps(info: CharmInfo, wantNew: bool, promulgated: bool)
  {
    IsNew(info) == wantNew && info.promulgated == promulgated
  }

  /** The keys of `order` whose info passes the test, in the order they come. */
  function Select(order: seq<string>, charms: map<string, CharmInfo>, wantNew: bool, promulgated: bool): seq<string>
    requires forall k :: k in order ==> k in charms
  {
    if order == [] then []
    else
      (if Keeps(charms[order[0]], wantNew, promulgated) then [order[0]] else []) +
      Select(order[1..], charms, wantNew, promulgated)
  }

  /** `s` can be obtained from `t` by deleting elements. */
  predicate IsSubsequence(s: seq<string>, t: seq<string>)
  {
    if s == [] then true
    else if t == [] then false
    else if s[0] == t[0] then IsSubsequence(s[1..], t[1..])
    else IsSubsequence(s, t[1..])
  }

  lemma {:induction false} SelectAppend(order: seq<string>, x: string, charms: map<string, CharmInfo>, wantNew: bool, promulgated: bool)
    requires forall k :: k in order + [x] ==> k in charms
    ensures Select(order + [x], charms, wantNew, promulgated) ==
            Select(order, charms, wantNew, promulgated) + (if Keeps(charms[x], wantNew, promulgated) then [x] else [])
  {
    if order == [] {
      assert [] + [x] == [x];
    } else {
      assert (order + [x])[1..] == order[1..] + [x];
      SelectAppend(order[1..], x, charms, wantNew, promulgated);
    }
  }

  /** A key is selected exactly when it is listed and passes the test. */
  lemma {:induction false} SelectMembers(order: seq<string>, charms: map<string, CharmInfo>, wantNew: bool, promulgated: bool)
    requires forall k :: k in order ==> k in charms
    ensures forall k :: k in Select(order, charms, wantNew, promulgated) <==>
              k in order && Keeps(charms[k], wantNew, promulgated)
  {
    if order != [] {
      SelectMembers(order[1..], charms, wantNew, promulgated);
      assert forall k :: k in order <==> k == order[0] || k in order[1..];
    }
  }

  /** Selecting keeps the iteration order. */
  lemma {:induction false} SelectIsSubsequence(order: seq<string>, charms: map<string, CharmInfo>, wantNew: bool, promulgated: bool)
    requires forall k :: k in order ==> k in charms
    ensures IsSubsequence(Select(order, charms, wantNew, promulgated), order)
  {
    if order != [] {
      var rest := Select(order[1..], charms, wantNew, promulgated);
      SelectIsSubsequence(order[1..], charms, wantNew, promulgated);
      if Keeps(charms[order[0]], wantNew, promulgated) {
        assert ([order[0]] + rest)[1..] == rest;
      } else {
        assert Select(order, charms, wantNew, promulgated) == rest;
        assert order == [order[0]] + order[1..];
        SubsequenceOfCons(rest, order[1..], order[0]);
      }
    }
  }

  lemma {:induction false} SubsequenceOfCons(s: seq<string>, t: seq<string>, x: string)
    requires IsSubsequence(s, t)
    ensures IsSubsequence(s, [x] + t)
    decreases |s| + |t|, 1
  {
    if s != [] {
      assert ([x] + t)[1..] == t;
      if s[0] == x {
        SubsequenceDropFirst(s, t);
      }
    }
  }

  lemma {:induction false} SubsequenceDropFirst(s: seq<string>, t: seq<string>)
    requires s != [] && IsSubsequence(s, t)
    ensures IsSubsequence(s[1..], t)
    decreases |s| + |t|, 0
  {
    if s[0] == t[0] {
      SubsequenceOfCons(s[1..], t[1..], t[0]);
      assert [t[0]] + t[1..] == t;
    } else {
      SubsequenceDropFirst(s, t[1..]);
      SubsequenceOfCons(s[1..], t[1..], t[0]);
      assert [t[0]] + t[1..] == t;
    }
  }

  /** Selecting from a list without repeats gives a list without repeats. */
  lemma {:induction false} SelectDistinct(order: seq<string>, charms: map<string, CharmInfo>, wantNew: bool, promulgated: bool)
    requires forall k :: k in order ==> k in charms
    requires Distinct(order)
    ensures Distinct(Select(order, charms, wantNew, promulgated))
  {
    if order != [] {
      var rest := Select(order[1..], charms, wantNew, promulgated);
      SelectDistinct(order[1..], charms, wantNew, promulgated);
      SelectMembers(order[1..], charms, wantNew, promulgated);
      assert order[0] !in order[1..] by {
        forall i | 0 <= i < |order[1..]| ensures order[1..][i] != order[0] {
          assert order[1..][i] == order[i + 1];
        }
      }
      var r := Select(order, charms, wantNew, promulgated);
      if Keeps(charms[order[0]], wantNew, promulgated) {
        forall i, j | 0 <= i < j < |r| ensures r[i] != r[j] {
          if i == 0 {
            assert r[j] == rest[j - 1];
            assert r[j] in rest;
          } else {
            assert r[i] == rest[i - 1] && r[j] == rest[j - 1];
          }
        }
      } else {
        assert r == rest;
      }
    }
  }

  /**
   * `filterNew`: the keys whose revision is 0 and whose promulgated flag is
   * `promulgated`, each once, in iteration order.
   */
  method FilterNew(charms: map<string, CharmInfo>, order: seq<string>, promulgated: bool)
    returns (filtered: seq<string>)
    requires IsIterationOrder(order, charms)
    ensures filtered == Select(order, charms, true, promulgated)
    ensures forall k :: k in filtered <==>
              k in charms && charms[k].revision == Some(0) && charms[k].promulgated == promulgated
    ensures Distinct(filtered) && IsSubsequence(filtered, order)
  {
    filtered := [];
    for i := 0 to |order|
      invariant filtered == Select(order[..i], charms, true, promulgated)
    {
      var charm := order[i];
      var info := charms[charm];
      SelectAppend(order[..i], charm, charms, true, promulgated);
      assert order[..i + 1] == order[..i] + [charm];
      if info.revision == Some(0) && info.promulgated == promulgated {
        filtered := filtered + [charm];
      }
    }
    assert order[..|order|] == order;
    SelectMembers(order, charms, true, promulgated);
    SelectDistinct(order, charms, true, promulgated);
    SelectIsSubsequence(order, charms, true, promulgated);
  }

  /**
   * `filterUpdatedRevisions`: the keys whose revision is not 0 (including an
   * unparsed revision) and whose promulgated flag is `promulgated`, each
   * once, in iteration order.
   */
  method FilterUpdatedRevisions(charms: map<string, CharmInfo>, order: seq<string>, promulgated: bool)
    returns (filtered: seq<string>)
    requires IsIterationOrder(order, charms)
    ensures filtered == Select(order, charms, false, promulgated)
    ensures forall k :: k in filtered <==>
              k in charms && charms[k].revision != Some(0) && charms[k].promulgated == promulgated
    ensures Distinct(filtered) && IsSubsequence(filtered, order)
  {
    filtered := [];
    for i := 0 to |order|
      invariant filtered == Select(order[..i], charms, false, promulgated)
    {
      var charm := order[i];
      var info := charms[charm];
      SelectAppend(order[..i], charm, charms, false, promulgated);
      assert order[..i + 1] == order[..i] + [charm];
      if info.revision != Some(0) && info.promulgated == promulgated {
        filtered := filtered + [charm];
      }
    }
    assert order[..|order|] == order;
    SelectMembers(order, charms, false, promulgated);
    SelectDistinct(order, charms, false, promulgated);
    SelectIsSubsequence(order, charms, false, promulgated);
  }

  method GetNewPromulgated(charms: map<string, CharmInfo>, order: seq<string>) returns (r: seq<string>)
    requires IsIterationOrder(order, charms)
    ensures r == Select(order, charms, true, true)
    ensures forall k :: k in r <==> k in charms && IsNew(charms[k]) && charms[k].promulgated
  {
    r := FilterNew(charms, order, true);
  }

  method GetNewCommunity(charms: map<string, CharmInfo>, order: seq<string>) returns (r: seq<string>)
    requires IsIterationOrder(order, charms)
    ensures r == Select(order, charms, true, false)
    ensures forall k :: k in r <==> k in charms && IsNew(charms[k]) && !charms[k].promulgated
  {
    r := FilterNew(charms, order, false);
  }

  method GetUpdatedPromulgated(charms: map<string, CharmInfo>, order: seq<string>) returns (r: seq<string>)
    requires IsIterationOrder(order, charms)
    ensures r == Select(order, charms, false, true)
    ensures forall k :: k in r <==> k in charms && !IsNew(charms[k]) && charms[k].promulgated
  {
    r := FilterUpdatedRevisions(charms, order, true);
  }

  method GetUpdatedCommunity(charms: map<string, CharmInfo>, order: seq<string>) returns (r: seq<string>)
    requires IsIterationOrder(order, charms)
    ensures r == Select(order, charms, false, false)
    ensures forall k :: k in r <==> k in charms && !IsNew(charms[k]) && !charms[k].promulgated
  {
    r := FilterUpdatedRevisions(charms, order, false);
  }

  /** The part of `Select(order, …)` that `order`'s first key contributes. */
  function Kept(x: string, info: CharmInfo, wantNew: bool, promulgated: bool): seq<string>
  {
    if Keeps(info, wantNew, promulgated) then [x] else []
  }

  /** A charm passes exactly one of the four tests. */
  lemma KeptByExactlyOne(x: string, info: CharmInfo)
    ensures multiset(Kept(x, info, true, true) + Kept(x, info, true, false) +
                     Kept(x, info, false, true) + Kept(x, info, false, false)) == multiset{x}
  {
    if IsNew(info) && info.promulgated {
      assert Kept(x, info, true, true) + Kept(x, info, true, false) +
             Kept(x, info, false, true) + Kept(x, info, false, false) == [x];
    } else if IsNew(info) {
      assert Kept(x, info, true, true) + Kept(x, info, true, false) +
             Kept(x, info, false, true) + Kept(x, info, false, false) == [x];
    } else if info.promulgated {
      assert Kept(x, info, true, true) + Kept(x, info, true, false) +
             Kept(x, info, false, true) + Kept(x, info, false, false) == [x];
    } else {
      assert Kept(x, info, true, true) + Kept(x, info, true, false) +
             Kept(x, info, false, true) + Kept(x, info, false, false) == [x];
    }
  }

  lemma MultisetRegroup(pa: seq<string>, a: seq<string>, pb: seq<string>, b: seq<string>,
                        pc: seq<string>, c: seq<string>, pd: seq<string>, d: seq<string>)
    ensures multiset((pa + a) + (pb + b) + (pc + c) + (pd + d)) ==
            multiset(pa + pb + pc + pd) + multiset(a + b + c + d)
  {
  }

  /** The four lists `main` computes, one after the other. */
  function Classified(order: seq<string>, charms: map<string, CharmInfo>): seq<string>
    requires forall k :: k in order ==> k in charms
  {
    Select(order, charms, true, true) + Select(order, charms, true, false) +
    Select(order, charms, false, true) + Select(order, charms, false, false)
  }

  lemma ClassifiedCons(order: seq<string>, charms: map<string, CharmInfo>)
    requires forall k :: k in order ==> k in charms
    requires order != []
    ensures multiset(Classified(order, charms)) == multiset{order[0]} + multiset(Classified(order[1..], charms))
  {
    var x, rest := order[0], order[1..];
    KeptByExactlyOne(x, charms[x]);
    MultisetRegroup(Kept(x, charms[x], true, true), Select(rest, charms, true, true),
                    Kept(x, charms[x], true, false), Select(rest, charms, true, false),
                    Kept(x, charms[x], false, true), Select(rest, charms, false, true),
                    Kept(x, charms[x], false, false), Select(rest, charms, false, false));
  }

  lemma MultisetCons(s: seq<string>)
    requires s != []
    ensures multiset(s) == multiset{s[0]} + multiset(s[1..])
  {
    assert s == [s[0]] + s[1..];
  }

  /** Together the four selections hold every listed key exactly as often as `order` does. */
  lemma {:induction false} SelectionsCoverOrder(order: seq<string>, charms: map<string, CharmInfo>)
    requires forall k :: k in order ==> k in charms
    ensures multiset(Classified(order, charms)) == multiset(order)
  {
    if order != [] {
      SelectionsCoverOrder(order[1..], charms);
      ClassifiedCons(order, charms);
      MultisetCons(order);
    }
  }

  /**
   * The lists `main` builds partition the dictionary: each key lands in
   * exactly one of them, once, and the four lengths add up to the number
   * of keys.
   */
  lemma ClassificationPartitions(charms: map<string, CharmInfo>, order: seq<string>)
    requires IsIterationOrder(order, charms)
    ensures var np, nc, up, uc := Select(order, charms, true, true), Select(order, charms, true, false),
                                  Select(order, charms, false, true), Select(order, charms, false, false);
      && (forall k :: k in charms <==> k in np + nc + up + uc)
      && (forall k :: k in np ==> k !in nc && k !in up && k !in uc)
      && (forall k :: k in nc ==> k !in up && k !in uc)
      && (forall k :: k in up ==> k !in uc)
      && multiset(np + nc + up + uc) == multiset(order)
      && |np| + |nc| + |up| + |uc| == |order|
  {
    SelectMembers(order, charms, true, true);
    SelectMembers(order, charms, true, false);
    SelectMembers(order, charms, false, true);
    SelectMembers(order, charms, false, false);
    SelectionsCoverOrder(order, charms);
    var np, nc, up, uc := Select(order, charms, true, true), Select(order, charms, true, false),
                          Select(order, charms, false, true), Select(order, charms, false, false);
    assert |multiset(np + nc + up + uc)| == |np + nc + up + uc|;
  }

  /** An id whose revision did not parse is always reported as updated. */
  lemma UnparsedRevisionIsUpdated(charms: map<string, CharmInfo>, order: seq<string>, k: string)
    requires IsIterationOrder(order, charms)
    requires k in charms && charms[k].revision == None
    ensures k in Select(order, charms, false, charms[k].promulgated)
    ensures k !in Select(order, charms, true, true) && k !in Select(order, charms, true, false)
  {
    SelectMembers(order, charms, false, charms[k].promulgated);
    SelectMembers(order, charms, true, true);
    SelectMembers(order, charms, true, false);
  }
}
