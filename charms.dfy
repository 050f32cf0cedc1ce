/**
 * What the report knows about each published charm: its id with the
 * `cs:` scheme removed, the revision parsed from the id's last `-` segment,
 * and whether the store lists it as promulgated (recommended).
 */
module Charms {
  import opened Wrappers
  import opened Strings

  /** The per-id record `getCharmInfo` stores in its dictionary. */
  datatype CharmInfo = CharmInfo(revision: Option<int>, promulgated: bool)

  /**
   * The revision is `int()` of the text after the last `-`, or of the whole
   * id when it has none. An id can only carry a revision that is at least 0,
   * since the segment `int()` sees holds no minus sign.
   */
  function GetCharmRevisionFromId(charmId: string): (revision: Option<int>)
    ensures revision.Some? ==> revision.value >= 0
  {
    var parts := Split(charmId, '-');
    var last := parts[|parts| - 1];
    ParseIntWithoutMinus(last);
    ParseInt(last)
  }

  /** The revision is read from exactly the text after the last `-`. */
  lemma RevisionOfLastSegment(name: string, segment: string)
    requires '-' !in segment
    ensures GetCharmRevisionFromId(name + "-" + segment) == ParseInt(segment)
  {
    LastPartAfterLastSeparator(name, segment, '-');
  }

  /** An id without `-` has the whole id given to `int()`. */
  lemma RevisionOfUndashedId(charmId: string)
    requires '-' !in charmId
    ensures GetCharmRevisionFromId(charmId) == ParseInt(charmId)
  {
    SplitNoSeparator(charmId, '-');
  }

  /** `foo-12` gives 12; `foo-bar` and `justid` (no `-`) give `None`. */
  lemma RevisionExamples(charmId: string)
    ensures charmId == "foo-12" ==> GetCharmRevisionFromId(charmId) == Some(12)
    ensures charmId == "foo-bar" ==> GetCharmRevisionFromId(charmId) == None
    ensures charmId == "justid" ==> GetCharmRevisionFromId(charmId) == None
  {
    if charmId == "foo-12" || charmId == "foo-bar" {
      var name, segment := charmId[..3], charmId[4..];
      assert charmId == name + "-" + segment;
      RevisionOfLastSegment(name, segment);
      if segment == "12" {
        ParseIntOfDigits(segment);
      } else {
        ParseIntRejectsLeadingOther(segment);
      }
    } else if charmId == "justid" {
      RevisionOfUndashedId(charmId);
      ParseIntRejectsLeadingOther(charmId);
    }
  }

  const Scheme := "cs:"

  /**
   * `charmId.replace('cs:', '')`: every `cs:` that does not overlap an
   * earlier deleted one goes, not only a prefix. The id never grows, and it
   * is left alone exactly when no `cs:` occurs in it.
   */
  function NormaliseId(charmId: string): (id: string)
    ensures |id| <= |charmId|
    ensures id == charmId <==> !Contains(charmId, Scheme)
  {
    DeleteShortens(charmId, Scheme);
    DeleteUnchangedIff(charmId, Scheme);
    Replace(charmId, Scheme, "")
  }

  /**
   * Scanning left to right: the first `cs:` goes when no earlier one
   * overlaps it, and normalising carries on in the text after it.
   */
  lemma NormaliseDropsFirst(p: string, q: string)
    requires !Contains(p + "cs", Scheme)
    ensures NormaliseId(p + Scheme + q) == p + NormaliseId(q)
  {
    SchemeHead();
    ReplaceLeftmost(p, Scheme, q, "");
    assert NormaliseId(p + Scheme + q) == Replace(p + Scheme + q, Scheme, "");
    assert p + "" == p;
  }

  lemma SchemeHead()
    ensures Scheme[..|Scheme| - 1] == "cs"
  {
  }

  /** Text without a `:` holds no `cs:`. */
  lemma NoSchemeWithoutColon(t: string)
    requires ':' !in t
    ensures !Contains(t, Scheme)
  {
    forall i ensures !OccursAt(t, Scheme, i) {
      if 0 <= i && i + |Scheme| <= |t| {
        assert t[i..i + |Scheme|][2] == t[i + 2];
      }
    }
  }

  // The literal comes in through `charmId` so that the verifier does not unfold it everywhere.
  /** Both `cs:` in `a-cs:b-cs:c` go, not only a leading one. */
  lemma NormaliseEveryScheme(charmId: string)
    requires charmId == "a-cs:b-cs:c"
    ensures NormaliseId(charmId) == "a-b-c"
  {
    var rest := charmId[5..];
    assert charmId == "a-" + Scheme + rest;
    assert rest == "b-" + Scheme + "c";
    NoSchemeWithoutColon("a-" + "cs");
    NoSchemeWithoutColon("b-" + "cs");
    NormaliseDropsFirst("a-", rest);
    NormaliseDropsFirst("b-", "c");
  }

  /** A store reference `cs:` + name loses its scheme and nothing else. */
  lemma NormaliseDropsScheme(name: string)
    requires !Contains(name, Scheme)
    ensures NormaliseId(Scheme + name) == name
  {
    NoSchemeWithoutColon("cs");
    NormaliseDropsFirst("", name);
    assert "" + Scheme + name == Scheme + name;
  }

  /** Normalising twice can differ from normalising once. */
  lemma NormaliseNotIdempotent()
    ensures NormaliseId("cscs::") == "cs:"
    ensures NormaliseId(NormaliseId("cscs::")) == ""
  {
    assert "cscs::"[..3][2] != Scheme[2];
    assert "cscs::"[1..] == "scs::";
    assert "scs::"[..3][0] != Scheme[0];
    assert "scs::"[1..] == "cs::";
    assert "cs::"[..3] == Scheme;
    assert "cs::"[3..] == ":";
    assert "cs:"[..3] == Scheme;
    assert "cs:"[3..] == "";
  }

  /** The information stored for a normalised id, given the store's promulgation answer. */
  function InfoFor(charmId: string, isPromulgated: string -> bool): CharmInfo
  {
    CharmInfo(GetCharmRevisionFromId(charmId), isPromulgated(charmId))
  }

  /** The dictionary after the records of `changes` have been stored in order. */
  function CharmInfoMap(changes: seq<string>, isPromulgated: string -> bool): map<string, CharmInfo>
  {
    if changes == [] then map[]
    else
      var charmId := NormaliseId(changes[|changes| - 1]);
      CharmInfoMap(changes[..|changes| - 1], isPromulgated)[charmId := InfoFor(charmId, isPromulgated)]
  }

  /** The normalised ids of the published records, as a set. */
  function NormalisedIds(changes: seq<string>): set<string>
  {
    set i | 0 <= i < |changes| :: NormaliseId(changes[i])
  }

  lemma NormalisedIdsAppend(changes: seq<string>)
    requires changes != []
    ensures NormalisedIds(changes) ==
            NormalisedIds(changes[..|changes| - 1]) + {NormaliseId(changes[|changes| - 1])}
  {
    var prefix := changes[..|changes| - 1];
    forall k | k in NormalisedIds(changes)
      ensures k in NormalisedIds(prefix) + {NormaliseId(changes[|changes| - 1])}
    {
      var i :| 0 <= i < |changes| && k == NormaliseId(changes[i]);
      if i < |prefix| {
        assert k == NormaliseId(prefix[i]);
      }
    }
    forall k | k in NormalisedIds(prefix) ensures k in NormalisedIds(changes) {
      var i :| 0 <= i < |prefix| && k == NormaliseId(prefix[i]);
      assert k == NormaliseId(changes[i]);
    }
  }

  /** The dictionary's keys are exactly the normalised ids of the records. */
  lemma {:induction false} CharmInfoMapKeys(changes: seq<string>, isPromulgated: string -> bool)
    ensures CharmInfoMap(changes, isPromulgated).Keys == NormalisedIds(changes)
  {
    if changes != [] {
      CharmInfoMapKeys(changes[..|changes| - 1], isPromulgated);
      NormalisedIdsAppend(changes);
    }
  }

  /** Each key holds the revision parsed from it and the store's answer for it. */
  lemma {:induction false} CharmInfoMapValues(changes: seq<string>, isPromulgated: string -> bool)
    ensures forall k :: k in CharmInfoMap(changes, isPromulgated) ==>
              CharmInfoMap(changes, isPromulgated)[k] == InfoFor(k, isPromulgated)
  {
    if changes != [] {
      CharmInfoMapValues(changes[..|changes| - 1], isPromulgated);
    }
  }

  /**
   * `getCharmInfo`: stores, for each published record in turn, the info of
   * its normalised id, so that a later record with the same id overwrites
   * an earlier one.
   */
  method GetCharmInfo(changes: seq<string>, isPromulgated: string -> bool)
    returns (charms: map<string, CharmInfo>)
    ensures charms == CharmInfoMap(changes, isPromulgated)
    ensures charms.Keys == NormalisedIds(changes)
    ensures forall k :: k in charms ==> charms[k] == InfoFor(k, isPromulgated)
  {
    charms := map[];
    for i := 0 to |changes|
      invariant charms == CharmInfoMap(changes[..i], isPromulgated)
    {
      var charmId := NormaliseId(changes[i]);
      var info := CharmInfo(GetCharmRevisionFromId(charmId), isPromulgated(charmId));
      charms := charms[charmId := info];
      assert changes[..i + 1][..i] == changes[..i];
    }
    assert changes[..|changes|] == changes;
    CharmInfoMapKeys(changes, isPromulgated);
    CharmInfoMapValues(changes, isPromulgated);
  }
}
