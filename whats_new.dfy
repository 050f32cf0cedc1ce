/**
 * The script's pipeline without its I/O: the published ids of one day go
 * through `getCharmInfo`, the four filters and `generateHtml`, in the
 * order `main` calls them.
 */
module WhatsNew {
  import opened Wrappers
  import opened Strings
  import opened Charms
  import opened Classify
  import opened Report

  /** The fragments of the page `main` writes for the published ids `changes`. */
  function PageFragments(changes: seq<string>, isPromulgated: string -> bool, order: seq<string>,
                         date: string): seq<Fragment>
    requires IsIterationOrder(order, CharmInfoMap(changes, isPromulgated))
  {
    var charms := CharmInfoMap(changes, isPromulgated);
    ReportFragments(Select(order, charms, true, true), Select(order, charms, true, false),
                    Select(order, charms, false, true), Select(order, charms, false, false), date)
  }

  /**
   * The body of `main` between fetching the changes and writing the file:
   * the info map, the four lists and the page.
   */
  method WhatsNewPage(changes: seq<string>, isPromulgated: string -> bool, order: seq<string>,
                      date: string) returns (html: string)
    requires IsIterationOrder(order, CharmInfoMap(changes, isPromulgated))
    ensures html == RenderAll(PageFragments(changes, isPromulgated, order, date))
  {
    var info := GetCharmInfo(changes, isPromulgated);
    var newPromulgated := GetNewPromulgated(info, order);
    var newCommunity := GetNewCommunity(info, order);
    var updatedPromulgated := GetUpdatedPromulgated(info, order);
    var updatedCommunity := GetUpdatedCommunity(info, order);
    html := GenerateHtml(newPromulgated, newCommunity, updatedPromulgated, updatedCommunity, date);
  }

  lemma {:induction false} DistinctCount(s: seq<string>, x: string)
    requires Distinct(s)
    ensures multiset(s)[x] == if x in s then 1 else 0
  {
    if s != [] {
      assert s == [s[0]] + s[1..];
      DistinctCount(s[1..], x);
      assert s[0] !in s[1..] by {
        forall j | 0 <= j < |s[1..]| ensures s[1..][j] != s[0] {
          assert s[1..][j] == s[j + 1];
        }
      }
    }
  }

  /**
   * Every charm published that day gets exactly one card on the page, and
   * nothing else does.
   */
  lemma EveryPublishedCharmOnce(changes: seq<string>, isPromulgated: string -> bool, order: seq<string>,
                                date: string)
    requires IsIterationOrder(order, CharmInfoMap(changes, isPromulgated))
    ensures var cards := Cards(PageFragments(changes, isPromulgated, order, date));
      forall k :: multiset(cards)[k] == if k in NormalisedIds(changes) then 1 else 0
  {
    var charms := CharmInfoMap(changes, isPromulgated);
    var np, nc, up, uc := Select(order, charms, true, true), Select(order, charms, true, false),
                          Select(order, charms, false, true), Select(order, charms, false, false);
    ReportCards(np, nc, up, uc, date);
    ClassificationPartitions(charms, order);
    CharmInfoMapKeys(changes, isPromulgated);
    forall k ensures multiset(np + nc + up + uc)[k] == if k in NormalisedIds(changes) then 1 else 0 {
      DistinctCount(order, k);
    }
  }

  /** A text without the letter `c` holds no `cs:`. */
  lemma NoSchemeWithoutC(s: string)
    requires 'c' !in s
    ensures !Contains(s, Scheme)
  {
    forall i ensures !OccursAt(s, Scheme, i) {
      if 0 <= i && i + |Scheme| <= |s| {
        assert s[i..i + |Scheme|][0] == s[i];
      }
    }
  }

  /** A record `cs:<name>-<digit>` whose name holds no `c` is stored under `<name>-<digit>`. */
  lemma PublishedRecord(name: string, digit: char)
    requires 'c' !in name && '-' !in name && '0' <= digit <= '9'
    ensures NormaliseId(Scheme + (name + "-" + [digit])) == name + "-" + [digit]
    ensures GetCharmRevisionFromId(name + "-" + [digit]) == Some(digit as int - '0' as int)
  {
    NoSchemeWithoutC(name + "-" + [digit]);
    NormaliseDropsScheme(name + "-" + [digit]);
    RevisionOfLastSegment(name, [digit]);
    ParseDigit(digit);
  }

  lemma ParseDigit(digit: char)
    requires '0' <= digit <= '9'
    ensures ParseInt([digit]) == Some(digit as int - '0' as int)
  {
    ParseIntOfPlainDigits([digit]);
    DigitValue(digit);
  }

  lemma DigitValue(digit: char)
    requires '0' <= digit <= '9'
    ensures AllDigits([digit]) && DigitsValue([digit]) == digit as int - '0' as int
  {
    assert [digit][..0] == [];
    assert DigitsValue([digit]) == 10 * DigitsValue([]) + (digit as int - '0' as int);
  }

  lemma {:induction false} SingletonOrEmpty(s: seq<string>, x: string, present: bool)
    requires Distinct(s)
    requires forall k :: k in s <==> present && k == x
    ensures s == if present then [x] else []
  {
    var expected := if present then [x] else [];
    forall k ensures multiset(s)[k] == multiset(expected)[k] {
      DistinctCount(s, k);
    }
    assert multiset(s) == multiset(expected);
    assert |s| == |multiset(s)| == |multiset(expected)| == |expected|;
    if present {
      assert s[0] in s;
    }
  }

  // The literals come in through `foo` and `bar` so that the verifier does not unfold them everywhere.
  /** The dictionary built from the two records `cs:foo-0` and `cs:bar-3`. */
  lemma FooBarMap(foo: string, bar: string, isPromulgated: string -> bool)
    requires foo == "foo-0" && bar == "bar-3"
    requires isPromulgated(foo) && !isPromulgated(bar)
    ensures CharmInfoMap([Scheme + foo, Scheme + bar], isPromulgated) ==
            map[foo := CharmInfo(Some(0), true), bar := CharmInfo(Some(3), false)]
  {
    FooBarRecords(foo, bar);
    PublishedInfo(foo, "foo", '0', isPromulgated);
    PublishedInfo(bar, "bar", '3', isPromulgated);
    TwoRecordMap(foo, bar, isPromulgated);
  }

  // The literals come in through `foo` and `bar` so that the verifier does not unfold them everywhere.
  lemma FooBarRecords(foo: string, bar: string)
    requires foo == "foo-0" && bar == "bar-3"
    ensures foo == "foo" + "-" + ['0'] && 'c' !in "foo" && '-' !in "foo"
    ensures bar == "bar" + "-" + ['3'] && 'c' !in "bar" && '-' !in "bar"
  {
  }

  /** The record `cs:<id>`, `id` being `<name>-<digit>`, is stored under `id` with the digit as revision. */
  lemma PublishedInfo(id: string, name: string, digit: char, isPromulgated: string -> bool)
    requires id == name + "-" + [digit]
    requires 'c' !in name && '-' !in name && '0' <= digit <= '9'
    ensures NormaliseId(Scheme + id) == id
    ensures InfoFor(id, isPromulgated) == CharmInfo(Some(digit as int - '0' as int), isPromulgated(id))
  {
    PublishedRecord(name, digit);
  }

  /** Two records that normalise to their own names give a dictionary of those two entries. */
  lemma TwoRecordMap(x: string, y: string, isPromulgated: string -> bool)
    requires NormaliseId(Scheme + x) == x && NormaliseId(Scheme + y) == y
    ensures CharmInfoMap([Scheme + x, Scheme + y], isPromulgated) ==
            map[x := InfoFor(x, isPromulgated), y := InfoFor(y, isPromulgated)]
  {
    var changes := [Scheme + x, Scheme + y];
    assert changes[..1] == [Scheme + x];
    assert changes[..1][..0] == [];
    assert CharmInfoMap(changes[..1], isPromulgated) == map[][x := InfoFor(x, isPromulgated)];
  }

  /** A filter that passes at most the key `x` returns `[x]` or nothing. */
  lemma SelectAtMostOne(order: seq<string>, charms: map<string, CharmInfo>, wantNew: bool, promulgated: bool,
                        x: string, present: bool)
    requires IsIterationOrder(order, charms)
    requires forall k :: k in charms ==> (Keeps(charms[k], wantNew, promulgated) <==> present && k == x)
    requires present ==> x in charms
    ensures Select(order, charms, wantNew, promulgated) == if present then [x] else []
  {
    SelectMembers(order, charms, wantNew, promulgated);
    SelectDistinct(order, charms, wantNew, promulgated);
    SingletonOrEmpty(Select(order, charms, wantNew, promulgated), x, present);
  }

  /** Of one new recommended charm and one updated community charm, each lands alone in its list. */
  lemma OneNewOneUpdated(order: seq<string>, charms: map<string, CharmInfo>, a: string, b: string, rev: int)
    requires a != b && rev != 0
    requires charms == map[a := CharmInfo(Some(0), true), b := CharmInfo(Some(rev), false)]
    requires IsIterationOrder(order, charms)
    ensures Select(order, charms, true, true) == [a]
    ensures Select(order, charms, true, false) == []
    ensures Select(order, charms, false, true) == []
    ensures Select(order, charms, false, false) == [b]
  {
    assert forall k :: k in charms ==> k == a || k == b;
    SelectAtMostOne(order, charms, true, true, a, true);
    SelectAtMostOne(order, charms, true, false, a, false);
    SelectAtMostOne(order, charms, false, true, a, false);
    SelectAtMostOne(order, charms, false, false, b, true);
  }

  // The literals come in through `foo` and `bar` so that the verifier does not unfold them everywhere.
  /**
   * Two records published the same day, a new recommended charm `foo` at
   * revision 0 and a community charm `bar` at revision 3: `foo-0` is the
   * only new recommended charm, `bar-3` the only updated community one,
   * and the other two lists are empty, whichever order the dictionary
   * yields its keys in.
   */
  lemma FooBarScenario(foo: string, bar: string, isPromulgated: string -> bool, order: seq<string>)
    requires foo == "foo-0" && bar == "bar-3"
    requires isPromulgated(foo) && !isPromulgated(bar)
    requires IsIterationOrder(order, CharmInfoMap([Scheme + foo, Scheme + bar], isPromulgated))
    ensures var charms := CharmInfoMap([Scheme + foo, Scheme + bar], isPromulgated);
      && Select(order, charms, true, true) == [foo]
      && Select(order, charms, true, false) == []
      && Select(order, charms, false, true) == []
      && Select(order, charms, false, false) == [bar]
  {
    FooBarMap(foo, bar, isPromulgated);
    assert foo != bar by {
      assert foo[0] != bar[0];
    }
    OneNewOneUpdated(order, CharmInfoMap([Scheme + foo, Scheme + bar], isPromulgated), foo, bar, 3);
  }
}
