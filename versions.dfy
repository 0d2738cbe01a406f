/**
 * Version-history deduplication: `OnlyOne` and its helper `included`
 * (pkg/helpers/helpers.go).
 *
 * A `time.Time` is modelled as an integer instant on which Go's zero value is
 * `ZeroTime` and `After` is strict `>`.
 */
module Versions {

  /** models.Version: a content digest and the instant it was recorded. */
  datatype Version = Version(hash: string, date: int)

  /** The zero value of Go's `time.Time`. */
  const ZeroTime: int := 0

  /** The distinct hashes of `s`, each once, in the order of their first appearance. */
  ghost function FirstSeen(s: seq<Version>): (hs: seq<string>)
    ensures forall i, j :: 0 <= i < j < |hs| ==> hs[i] != hs[j]
    ensures forall k :: 0 <= k < |s| ==> s[k].hash in hs
    ensures forall h :: h in hs ==> exists k :: 0 <= k < |s| && s[k].hash == h
    decreases |s|
  {
    if s == [] then []
    else
      var prefix := s[..|s| - 1];
      var prev := FirstSeen(prefix);
      assert forall k :: 0 <= k < |s| - 1 ==> s[k] == prefix[k];
      if s[|s| - 1].hash in prev then prev else prev + [s[|s| - 1].hash]
  }

  /** Position of the first record of `s` whose hash is `h`; `|s|` when there is none. */
  ghost function FirstIndex(s: seq<Version>, h: string): (i: nat)
    ensures i <= |s|
    ensures i < |s| ==> s[i].hash == h
    ensures forall k :: 0 <= k < i ==> s[k].hash != h
  {
    if s == [] then 0
    else if s[0].hash == h then 0
    else 1 + FirstIndex(s[1..], h)
  }

  /**
   * What the inner loop's `timestamp` ends at for hash `h`: the latest date of
   * the records of `s` with that hash, or `ZeroTime` when none is after it.
   */
  ghost function Latest(s: seq<Version>, h: string): (d: int)
    ensures d >= ZeroTime
    ensures forall k :: 0 <= k < |s| && s[k].hash == h ==> s[k].date <= d
    ensures d > ZeroTime ==> exists k :: 0 <= k < |s| && s[k].hash == h && s[k].date == d
    decreases |s|
  {
    if s == [] then ZeroTime
    else
      var prefix := s[..|s| - 1];
      var d := Latest(prefix, h);
      assert forall k :: 0 <= k < |s| - 1 ==> s[k] == prefix[k];
      if s[|s| - 1].hash == h && s[|s| - 1].date > d then s[|s| - 1].date else d
  }

  /**
   * The record `OnlyOne` emits for hash `h`: the hash with its latest date, or
   * the zero `Version` when no record of the group is after the zero time,
   * because `latest` and `timestamp` are then never assigned.
   */
  ghost function Entry(s: seq<Version>, h: string): (r: Version)
    ensures (exists k :: 0 <= k < |s| && s[k].hash == h && s[k].date > ZeroTime) ==>
      r.hash == h
      && (forall k :: 0 <= k < |s| && s[k].hash == h ==> s[k].date <= r.date)
      && (exists k :: 0 <= k < |s| && s[k].hash == h && s[k].date == r.date)
    ensures (forall k :: 0 <= k < |s| && s[k].hash == h ==> s[k].date <= ZeroTime) ==>
      r == Version("", ZeroTime)
  {
    var d := Latest(s, h);
    if d > ZeroTime then Version(h, d) else Version("", ZeroTime)
  }

  /** The specification of `OnlyOne`: one entry per distinct hash, in first-appearance order. */
  ghost function Deduplicated(s: seq<Version>): (r: seq<Version>)
  {
    var hs := FirstSeen(s);
    seq(|hs|, j requires 0 <= j < |hs| => Entry(s, hs[j]))
  }

  /** `included`: whether `hash` is one of `hashes`. */
  method Included(hashes: seq<string>, hash: string) returns (found: bool)
    ensures found <==> hash in hashes
  {
    for i := 0 to |hashes|
      invariant hash !in hashes[..i]
    {
      if hashes[i] == hash {
        return true;
      }
    }
    return false;
  }

  /** `OnlyOne`: collapses a version history to one record per distinct hash. */
  method OnlyOne(vs: seq<Version>) returns (latests: seq<Version>)
    ensures latests == Deduplicated(vs)
  {
    var checked: seq<string> := [];
    latests := [];
    for i := 0 to |vs|
      invariant checked == FirstSeen(vs[..i])
      invariant |latests| == |checked|
      invariant forall j :: 0 <= j < |latests| ==> latests[j] == Entry(vs, checked[j])
    {
      var vv := vs[i];
      assert vs[..i + 1][..i] == vs[..i];
      var seen := Included(checked, vv.hash);
      if seen {
        continue;
      }
      checked := checked + [vv.hash];
      var timestamp := ZeroTime;
      var latest := "";
      for k := 0 to |vs|
        invariant timestamp == Latest(vs[..k], vv.hash)
        invariant latest == if timestamp > ZeroTime then vv.hash else ""
      {
        var v := vs[k];
        assert vs[..k + 1][..k] == vs[..k];
        if vv.hash == v.hash {
          if v.date > timestamp {
            timestamp := v.date;
            latest := v.hash;
          }
        }
      }
      assert vs[..|vs|] == vs;
      latests := latests + [Version(latest, timestamp)];
    }
    assert vs[..|vs|] == vs;
  }

  /** Earlier entries of `FirstSeen` first appear earlier in the input. */
  lemma {:induction false} FirstSeenOrdered(s: seq<Version>, i: nat, j: nat)
    requires i < j < |FirstSeen(s)|
    ensures FirstIndex(s, FirstSeen(s)[i]) < FirstIndex(s, FirstSeen(s)[j])
    decreases |s|
  {
    var prefix := s[..|s| - 1];
    var hs, prev := FirstSeen(s), FirstSeen(prefix);
    assert forall k :: 0 <= k < |s| - 1 ==> s[k] == prefix[k];
    FirstIndexOfPrefix(s, hs[i]);
    if j < |prev| {
      FirstSeenOrdered(prefix, i, j);
      FirstIndexOfPrefix(s, hs[j]);
    } else {
      assert hs[j] == s[|s| - 1].hash && hs[j] !in prev;
      assert FirstIndex(s, hs[j]) == |s| - 1;
    }
  }

  /** A hash that occurs before the last record keeps its first position when the last record is added. */
  lemma {:induction false} FirstIndexOfPrefix(s: seq<Version>, h: string)
    requires s != [] && h in FirstSeen(s[..|s| - 1])
    ensures FirstIndex(s, h) == FirstIndex(s[..|s| - 1], h) < |s| - 1
  {
    var prefix := s[..|s| - 1];
    var k :| 0 <= k < |prefix| && prefix[k].hash == h;
    var m, n := FirstIndex(prefix, h), FirstIndex(s, h);
    assert m <= k;
    assert s[m] == prefix[m];
    assert forall i :: 0 <= i < m ==> s[i] == prefix[i];
    assert n <= m;
  }

  /** `OnlyOne` emits exactly one entry per distinct hash of its input, and no other. */
  lemma DeduplicatedOnePerHash(s: seq<Version>, k: nat)
    requires k < |s|
    ensures exists j :: 0 <= j < |Deduplicated(s)| && FirstSeen(s)[j] == s[k].hash
    ensures forall i, j :: 0 <= i < j < |Deduplicated(s)| && Deduplicated(s)[i].hash != "" ==>
      Deduplicated(s)[i].hash != Deduplicated(s)[j].hash
    ensures |Deduplicated(s)| <= |s|
  {
    var hs := FirstSeen(s);
    var j :| 0 <= j < |hs| && hs[j] == s[k].hash;
    DistinctBound(s);
  }

  /** There are no more distinct hashes than records. */
  lemma {:induction false} DistinctBound(s: seq<Version>)
    ensures |FirstSeen(s)| <= |s|
    decreases |s|
  {
    if s != [] {
      DistinctBound(s[..|s| - 1]);
    }
  }

  /** Entries come out in the order in which their hashes first appear in the input. */
  lemma DeduplicatedOrder(s: seq<Version>, i: nat, j: nat)
    requires i < j < |Deduplicated(s)|
    ensures FirstIndex(s, FirstSeen(s)[i]) < FirstIndex(s, FirstSeen(s)[j])
  {
    FirstSeenOrdered(s, i, j);
  }

  /** A group with a record after the zero time is emitted with its hash and its latest date. */
  lemma DeduplicatedLatest(s: seq<Version>, j: nat, k: nat)
    requires j < |Deduplicated(s)| && k < |s|
    requires s[k].hash == FirstSeen(s)[j] && s[k].date > ZeroTime
    ensures Deduplicated(s)[j].hash == s[k].hash
    ensures exists m :: 0 <= m < |s| && s[m].hash == s[k].hash && s[m].date == Deduplicated(s)[j].date
    ensures forall m :: 0 <= m < |s| && s[m].hash == s[k].hash ==> s[m].date <= Deduplicated(s)[j].date
  {
  }

  /** A group none of whose records is after the zero time comes out as the zero `Version`. */
  lemma DeduplicatedZero(s: seq<Version>, j: nat)
    requires j < |Deduplicated(s)|
    requires forall m :: 0 <= m < |s| && s[m].hash == FirstSeen(s)[j] ==> s[m].date <= ZeroTime
    ensures Deduplicated(s)[j] == Version("", ZeroTime)
  {
  }

  /** The empty history deduplicates to nothing. */
  lemma DeduplicatedEmpty()
    ensures Deduplicated([]) == []
  {
  }

  /** A single record comes back unchanged when it is after the zero time, as the zero `Version` otherwise. */
  lemma DeduplicatedSingle(v: Version)
    ensures Deduplicated([v]) == if v.date > ZeroTime then [v] else [Version("", ZeroTime)]
  {
    assert [v][..0] == [];
    assert FirstSeen([v]) == [v.hash];
  }

  /** Two records of one hash collapse to the later; a second hash keeps its own place after it. */
  lemma DeduplicatedLaterWins(h1: string, h2: string, t1: int, t2: int, t3: int)
    requires h1 != h2 && ZeroTime < t1 < t3 && ZeroTime < t2
    ensures Deduplicated([Version(h1, t1), Version(h1, t3), Version(h2, t2)]) == [Version(h1, t3), Version(h2, t2)]
  {
    var s := [Version(h1, t1), Version(h1, t3), Version(h2, t2)];
    assert s[..1][..0] == [];
    assert FirstSeen(s[..1]) == [h1];
    assert s[..2][..1] == s[..1];
    assert FirstSeen(s[..2]) == [h1];
    assert s[..3][..2] == s[..2];
    assert FirstSeen(s) == [h1, h2];
  }

  /** Two records of one hash with the same date collapse to that date. */
  lemma DeduplicatedTie(h: string, t: int)
    requires ZeroTime < t
    ensures Deduplicated([Version(h, t), Version(h, t)]) == [Version(h, t)]
  {
    var s := [Version(h, t), Version(h, t)];
    assert s[..1][..0] == [];
    assert FirstSeen(s[..1]) == [h];
    assert s[..2][..1] == s[..1];
    assert FirstSeen(s) == [h];
  }

  /** A history whose hashes are already distinct lists them as they stand. */
  lemma {:induction false} FirstSeenOfDistinct(t: seq<Version>)
    requires forall i, j :: 0 <= i < j < |t| ==> t[i].hash != t[j].hash
    ensures |FirstSeen(t)| == |t|
    ensures forall i :: 0 <= i < |t| ==> FirstSeen(t)[i] == t[i].hash
    decreases |t|
  {
    if t != [] {
      var prefix := t[..|t| - 1];
      FirstSeenOfDistinct(prefix);
      assert t[|t| - 1].hash !in FirstSeen(prefix);
    }
  }

  /** Deduplicating twice changes nothing once every record is after the zero time. */
  lemma DeduplicatedIdempotent(s: seq<Version>)
    requires forall k :: 0 <= k < |s| ==> s[k].date > ZeroTime
    ensures Deduplicated(Deduplicated(s)) == Deduplicated(s)
  {
    var d := Deduplicated(s);
    DeduplicatedKeepsHashes(s);
    FirstSeenOfDistinct(d);
    var dd := Deduplicated(d);
    forall j | 0 <= j < |d|
      ensures dd[j] == d[j]
    {
      var top := Latest(d, d[j].hash);
      assert top >= d[j].date > ZeroTime;
      var m :| 0 <= m < |d| && d[m].hash == d[j].hash && d[m].date == top;
      assert m == j;
    }
  }

  /** When every record is after the zero time, every entry carries its own hash and a date after the zero time. */
  lemma DeduplicatedKeepsHashes(s: seq<Version>)
    requires forall k :: 0 <= k < |s| ==> s[k].date > ZeroTime
    ensures forall j :: 0 <= j < |Deduplicated(s)| ==>
      Deduplicated(s)[j].hash == FirstSeen(s)[j] && Deduplicated(s)[j].date > ZeroTime
  {
    var hs := FirstSeen(s);
    forall j | 0 <= j < |hs|
      ensures Latest(s, hs[j]) > ZeroTime
    {
      assert hs[j] in hs;
      var k :| 0 <= k < |s| && s[k].hash == hs[j];
    }
  }
}
