/**
 * Statistics aggregation of the asteroid tracker: given the HTTP status and
 * the parsed body of one near-Earth-object feed response, compute the count
 * of asteroids, the count of potentially hazardous ones, the largest
 * estimated diameter and the nearest miss distance, or copy out the remote
 * error descriptor.
 */
module AsteroidTracker {

  /** One detected object of a date group. `closeApproachMissKms` holds the
      miss distance in kilometres of each close-approach entry, in order;
      only the first one is used. */
  datatype NeoRecord = NeoRecord(
    isPotentiallyHazardous: bool,
    estimatedDiameterMaxMeters: real,
    closeApproachMissKms: seq<real>)

  /** The parsed response body. A feed carries the declared element count and
      the record lists of the date mapping, in key order; an error body
      carries the remote error descriptor. */
  datatype Body =
    | Feed(elementCount: int, nearEarthObjects: seq<seq<NeoRecord>>)
    | ErrorBody(code: int, httpError: string, errorMessage: string)

  /** The two result shapes: the statistics record or the error record. */
  datatype Outcome =
    | Statistics(
        startDate: string,
        endDate: string,
        numAsteroids: int,
        numPotentiallyHazardous: nat,
        largestDiameterMeters: real,
        nearestMissKms: real)
    | HttpError(code: int, errorType: string, message: string)

  /** The exceptions the aggregation lets escape: a missing key in the body,
      an empty close-approach list, and `max`/`min` of an empty list. */
  datatype Exception = KeyError | IndexError | ValueError

  datatype Result<T> = Ok(value: T) | Raised(exception: Exception)

  const StatusOk: int := 200

  // ---------------------------------------------------------------------
  // Specification functions over the flattened records
  // ---------------------------------------------------------------------

  /** All records of all date groups, in walk order. */
  function Flatten(groups: seq<seq<NeoRecord>>): seq<NeoRecord>
  {
    if groups == [] then []
    else Flatten(groups[..|groups| - 1]) + groups[|groups| - 1]
  }

  /** Number of records whose hazard flag is set. */
  function HazardousCount(rs: seq<NeoRecord>): nat
  {
    if rs == [] then 0
    else HazardousCount(rs[..|rs| - 1]) + (if rs[|rs| - 1].isPotentiallyHazardous then 1 else 0)
  }

  /** Number of records over all date groups, group by group. */
  function TotalRecords(groups: seq<seq<NeoRecord>>): nat
  {
    if groups == [] then 0
    else TotalRecords(groups[..|groups| - 1]) + |groups[|groups| - 1]|
  }

  /** Sum of the hazardous counts of the date groups taken one at a time. */
  function HazardousPerGroup(groups: seq<seq<NeoRecord>>): nat
  {
    if groups == [] then 0
    else HazardousPerGroup(groups[..|groups| - 1]) + HazardousCount(groups[|groups| - 1])
  }

  /** Positions of the hazardous records: an independent description of the count. */
  function HazardousPositions(rs: seq<NeoRecord>): set<int>
  {
    set k | 0 <= k < |rs| && rs[k].isPotentiallyHazardous
  }

  predicate HasCloseApproach(r: NeoRecord)
  {
    |r.closeApproachMissKms| > 0
  }

  /** Every record has a first close-approach entry to read. */
  predicate AllHaveCloseApproach(rs: seq<NeoRecord>)
  {
    rs == [] || (AllHaveCloseApproach(rs[..|rs| - 1]) && HasCloseApproach(rs[|rs| - 1]))
  }

  /** One diameter per record, in walk order. */
  function Diameters(rs: seq<NeoRecord>): seq<real>
  {
    if rs == [] then []
    else Diameters(rs[..|rs| - 1]) + [rs[|rs| - 1].estimatedDiameterMaxMeters]
  }

  /** One miss distance per record, from its first close-approach entry. */
  function FirstMisses(rs: seq<NeoRecord>): seq<real>
    requires AllHaveCloseApproach(rs)
  {
    if rs == [] then []
    else FirstMisses(rs[..|rs| - 1]) + [rs[|rs| - 1].closeApproachMissKms[0]]
  }

  /** Python's `max` over a non-empty list: the first greatest element. */
  function Largest(s: seq<real>): (m: real)
    requires |s| > 0
    ensures m in s
    ensures forall k :: 0 <= k < |s| ==> s[k] <= m
  {
    if |s| == 1 then s[0]
    else
      var front := Largest(s[..|s| - 1]);
      if s[|s| - 1] > front then s[|s| - 1] else front
  }

  /** Python's `min` over a non-empty list: the first least element. */
  function Smallest(s: seq<real>): (m: real)
    requires |s| > 0
    ensures m in s
    ensures forall k :: 0 <= k < |s| ==> m <= s[k]
  {
    if |s| == 1 then s[0]
    else
      var front := Smallest(s[..|s| - 1]);
      if s[|s| - 1] < front then s[|s| - 1] else front
  }

  /** What `calculate_statistics` returns, or which exception it raises,
      for a given status and parsed body. */
  function StatisticsOf(startDate: string, endDate: string, status: int, body: Body): Result<Outcome>
  {
    if status == StatusOk then
      match body
      case ErrorBody(_, _, _) => Raised(KeyError)
      case Feed(elementCount, groups) =>
        var rs := Flatten(groups);
        if !AllHaveCloseApproach(rs) then Raised(IndexError)
        else if rs == [] then Raised(ValueError)
        else Ok(Statistics(startDate, endDate, elementCount, HazardousCount(rs),
                           Largest(Diameters(rs)), Smallest(FirstMisses(rs))))
    else
      match body
      case Feed(_, _) => Raised(KeyError)
      case ErrorBody(code, httpError, errorMessage) => Ok(HttpError(code, httpError, errorMessage))
  }

  /** A 200 feed reaches the result: every record of every date group has a
      close-approach entry, and some date group is not empty. */
  predicate WalkSucceeds(groups: seq<seq<NeoRecord>>)
  {
    (forall i, j :: 0 <= i < |groups| && 0 <= j < |groups[i]| ==> HasCloseApproach(groups[i][j])) &&
    (exists i :: 0 <= i < |groups| && groups[i] != [])
  }

  // ---------------------------------------------------------------------
  // The aggregation itself
  // ---------------------------------------------------------------------

  /** The nested walk over the date groups: counts hazardous records and
      appends one diameter and one first miss distance per record. `raised`
      reports the index error of a record without close-approach data. */
  method Walk(groups: seq<seq<NeoRecord>>)
    returns (raised: bool, numHazardous: nat, diameters: seq<real>, misses: seq<real>)
    ensures raised <==> !AllHaveCloseApproach(Flatten(groups))
    ensures !raised ==> numHazardous == HazardousCount(Flatten(groups))
    ensures !raised ==> |diameters| == |Flatten(groups)| && |misses| == |Flatten(groups)|
    ensures !raised ==> forall k :: 0 <= k < |Flatten(groups)| ==>
      diameters[k] == Flatten(groups)[k].estimatedDiameterMaxMeters &&
      |Flatten(groups)[k].closeApproachMissKms| > 0 &&
      misses[k] == Flatten(groups)[k].closeApproachMissKms[0]
  {
    numHazardous, diameters, misses := 0, [], [];
    ghost var walked: seq<NeoRecord> := [];
    var i := 0;
    while i < |groups|
      invariant 0 <= i <= |groups|
      invariant walked == Flatten(groups[..i])
      invariant AllHaveCloseApproach(walked)
      invariant numHazardous == HazardousCount(walked)
      invariant diameters == Diameters(walked)
      invariant misses == FirstMisses(walked)
    {
      var objects := groups[i];
      FlattenStep(groups, i);
      var j := 0;
      while j < |objects|
        invariant 0 <= j <= |objects|
        invariant Flatten(groups[..i + 1]) == walked + objects[j..]
        invariant AllHaveCloseApproach(walked)
        invariant numHazardous == HazardousCount(walked)
        invariant diameters == Diameters(walked)
        invariant misses == FirstMisses(walked)
      {
        var detected := objects[j];
        WalkStep(walked, detected);
        assert objects[j..] == [detected] + objects[j + 1..];
        if detected.isPotentiallyHazardous {
          numHazardous := numHazardous + 1;
        }
        diameters := diameters + [detected.estimatedDiameterMaxMeters];
        if |detected.closeApproachMissKms| == 0 {
          MissingCloseApproach(groups, i, j);
          raised := true;
          return;
        }
        misses := misses + [detected.closeApproachMissKms[0]];
        walked := walked + [detected];
        j := j + 1;
      }
      i := i + 1;
    }
    assert groups[..i] == groups;
    DiametersAt(walked);
    FirstMissesAt(walked);
    raised := false;
  }

  /** `calculate_statistics` with the fetch replaced by a supplied status
      and parsed body. */
  method CalculateStatistics(startDate: string, endDate: string, status: int, body: Body)
    returns (r: Result<Outcome>)
    ensures r == StatisticsOf(startDate, endDate, status, body)
  {
    if status == StatusOk {
      if !body.Feed? {
        return Raised(KeyError);
      }
      var numAsteroids := body.elementCount;
      var raised, numHazardous, diameters, misses := Walk(body.nearEarthObjects);
      if raised {
        return Raised(IndexError);
      }
      ghost var rs := Flatten(body.nearEarthObjects);
      DiametersAt(rs);
      FirstMissesAt(rs);
      assert diameters == Diameters(rs);
      assert misses == FirstMisses(rs);
      if |diameters| == 0 {
        return Raised(ValueError);
      }
      var largestDiameterMeters := Largest(diameters);
      var nearestMissKms := Smallest(misses);
      r := Ok(Statistics(startDate, endDate, numAsteroids, numHazardous,
                         largestDiameterMeters, nearestMissKms));
    } else {
      if !body.ErrorBody? {
        return Raised(KeyError);
      }
      r := Ok(HttpError(body.code, body.httpError, body.errorMessage));
    }
  }

  // ---------------------------------------------------------------------
  // Lemmas about the flattening and the count
  // ---------------------------------------------------------------------

  /** Entry k of the diameter list comes from record k. */
  lemma {:induction false} DiametersAt(rs: seq<NeoRecord>)
    ensures |Diameters(rs)| == |rs|
    ensures forall k :: 0 <= k < |rs| ==> Diameters(rs)[k] == rs[k].estimatedDiameterMaxMeters
  {
    if rs != [] {
      DiametersAt(rs[..|rs| - 1]);
    }
  }

  /** Entry k of the miss list is the first close-approach distance of record k. */
  lemma {:induction false} FirstMissesAt(rs: seq<NeoRecord>)
    requires AllHaveCloseApproach(rs)
    ensures |FirstMisses(rs)| == |rs|
    ensures forall k :: 0 <= k < |rs| ==>
      |rs[k].closeApproachMissKms| > 0 && FirstMisses(rs)[k] == rs[k].closeApproachMissKms[0]
  {
    if rs != [] {
      FirstMissesAt(rs[..|rs| - 1]);
    }
  }

  /** The success condition stated on the date groups is the one the
      aggregation checks on the walked records. */
  lemma WalkSucceedsExactly(groups: seq<seq<NeoRecord>>)
    ensures WalkSucceeds(groups) <==> AllHaveCloseApproach(Flatten(groups)) && Flatten(groups) != []
  {
    AllHaveMembers(Flatten(groups));
    FlattenEmpty(groups);
    forall r | r in Flatten(groups)
      ensures exists i :: 0 <= i < |groups| && r in groups[i]
    {
      FlattenMembers(groups, r);
    }
    forall i, j | 0 <= i < |groups| && 0 <= j < |groups[i]|
      ensures groups[i][j] in Flatten(groups)
    {
      FlattenMembers(groups, groups[i][j]);
    }
  }

  /** The recursive check agrees with "every member has close-approach data". */
  lemma {:induction false} AllHaveMembers(rs: seq<NeoRecord>)
    ensures AllHaveCloseApproach(rs) <==> forall r :: r in rs ==> HasCloseApproach(r)
  {
    if rs != [] {
      var front := rs[..|rs| - 1];
      AllHaveMembers(front);
      assert rs == front + [rs[|rs| - 1]];
    }
  }

  /** One record without close-approach data anywhere makes the walk fail. */
  lemma MissingCloseApproach(groups: seq<seq<NeoRecord>>, i: nat, j: nat)
    requires i < |groups| && j < |groups[i]|
    requires !HasCloseApproach(groups[i][j])
    ensures !AllHaveCloseApproach(Flatten(groups))
  {
    FlattenMembers(groups, groups[i][j]);
    AllHaveMembers(Flatten(groups));
  }

  lemma FlattenStep(groups: seq<seq<NeoRecord>>, i: nat)
    requires i < |groups|
    ensures Flatten(groups[..i + 1]) == Flatten(groups[..i]) + groups[i]
  {
    assert groups[..i + 1][..i] == groups[..i];
  }

  /** Walking one more record adds its flag, its diameter and its first miss
      distance at the end. */
  lemma WalkStep(walked: seq<NeoRecord>, detected: NeoRecord)
    ensures HazardousCount(walked + [detected])
      == HazardousCount(walked) + (if detected.isPotentiallyHazardous then 1 else 0)
    ensures Diameters(walked + [detected]) == Diameters(walked) + [detected.estimatedDiameterMaxMeters]
    ensures AllHaveCloseApproach(walked + [detected])
      <==> AllHaveCloseApproach(walked) && HasCloseApproach(detected)
    ensures AllHaveCloseApproach(walked + [detected]) ==>
      FirstMisses(walked + [detected]) == FirstMisses(walked) + [detected.closeApproachMissKms[0]]
  {
    assert (walked + [detected])[..|walked|] == walked;
  }

  /** A record is walked exactly when it belongs to some date group. */
  lemma {:induction false} FlattenMembers(groups: seq<seq<NeoRecord>>, r: NeoRecord)
    ensures r in Flatten(groups) <==> exists i :: 0 <= i < |groups| && r in groups[i]
    decreases |groups|
  {
    if groups != [] {
      var n := |groups| - 1;
      var front := groups[..n];
      FlattenMembers(front, r);
      assert forall i :: 0 <= i < n ==> front[i] == groups[i];
    }
  }

  /** Nothing is walked exactly when every date group is empty. */
  lemma FlattenEmpty(groups: seq<seq<NeoRecord>>)
    ensures Flatten(groups) == [] <==> forall i :: 0 <= i < |groups| ==> groups[i] == []
  {
    if Flatten(groups) == [] {
      forall i | 0 <= i < |groups|
        ensures groups[i] == []
      {
        if groups[i] != [] {
          FlattenMembers(groups, groups[i][0]);
          assert false;
        }
      }
    } else {
      var r := Flatten(groups)[0];
      FlattenMembers(groups, r);
    }
  }

  /** Every record of every group is walked once: the walk is as long as
      the group sizes added up. */
  lemma {:induction false} FlattenLength(groups: seq<seq<NeoRecord>>)
    ensures |Flatten(groups)| == TotalRecords(groups)
  {
    if groups != [] {
      FlattenLength(groups[..|groups| - 1]);
    }
  }

  /** Counting over the whole walk is counting group by group and adding up. */
  lemma {:induction false} HazardousCountPerGroup(groups: seq<seq<NeoRecord>>)
    ensures HazardousCount(Flatten(groups)) == HazardousPerGroup(groups)
  {
    if groups != [] {
      var n := |groups| - 1;
      HazardousCountPerGroup(groups[..n]);
      HazardousCountAppend(Flatten(groups[..n]), groups[n]);
    }
  }

  lemma {:induction false} HazardousCountBounded(rs: seq<NeoRecord>)
    ensures HazardousCount(rs) <= |rs|
  {
    if rs != [] {
      HazardousCountBounded(rs[..|rs| - 1]);
    }
  }

  /** The count is the number of positions holding a hazardous record. */
  lemma {:induction false} HazardousCountIsPositions(rs: seq<NeoRecord>)
    ensures HazardousCount(rs) == |HazardousPositions(rs)|
  {
    if rs != [] {
      var n := |rs| - 1;
      var front := rs[..n];
      HazardousCountIsPositions(front);
      var last := if rs[n].isPotentiallyHazardous then {n} else {};
      assert HazardousPositions(rs) == HazardousPositions(front) + last;
      assert n !in HazardousPositions(front);
    }
  }

  lemma {:induction false} HazardousCountAppend(a: seq<NeoRecord>, b: seq<NeoRecord>)
    ensures HazardousCount(a + b) == HazardousCount(a) + HazardousCount(b)
    decreases |b|
  {
    if b == [] {
      assert a + b == a;
    } else {
      var n := |b| - 1;
      HazardousCountAppend(a, b[..n]);
      assert (a + b)[..|a + b| - 1] == a + b[..n];
    }
  }

  /** The count does not depend on the order in which records are walked. */
  lemma {:induction false} HazardousCountPermutation(a: seq<NeoRecord>, b: seq<NeoRecord>)
    requires multiset(a) == multiset(b)
    ensures HazardousCount(a) == HazardousCount(b)
    decreases |a|
  {
    if a == [] {
      assert |b| == |multiset(b)| == 0;
    } else {
      var n := |a| - 1;
      var x := a[n];
      assert x in multiset(b);
      var k :| 0 <= k < |b| && b[k] == x;
      var before, after := b[..k], b[k + 1..];
      assert b == before + [x] + after;
      assert a == a[..n] + [x];
      assert multiset(b) == multiset(before) + multiset([x]) + multiset(after);
      assert multiset(a) == multiset(a[..n]) + multiset([x]);
      assert multiset(before + after) == multiset(before) + multiset(after);
      assert multiset(a[..n]) == multiset(a) - multiset{x};
      assert multiset(before + after) == multiset(b) - multiset{x};
      HazardousCountPermutation(a[..n], before + after);
      HazardousCountAppend(before, [x]);
      HazardousCountAppend(before + [x], after);
      HazardousCountAppend(before, after);
      assert [x][..0] == [];
      var h := if x.isPotentiallyHazardous then 1 else 0;
      assert HazardousCount([x]) == h;
      calc {
        HazardousCount(a);
        HazardousCount(a[..n]) + h;
        HazardousCount(before) + HazardousCount(after) + h;
        HazardousCount(before + [x]) + HazardousCount(after);
        HazardousCount(b);
      }
    }
  }

  // ---------------------------------------------------------------------
  // Lemmas about the extremes
  // ---------------------------------------------------------------------

  lemma LargestOfSameMembers(s: seq<real>, t: seq<real>)
    requires |s| > 0 && |t| > 0
    requires forall x :: x in s <==> x in t
    ensures Largest(s) == Largest(t)
  {
    var ms, mt := Largest(s), Largest(t);
    var i :| 0 <= i < |t| && t[i] == ms;
    var j :| 0 <= j < |s| && s[j] == mt;
  }

  lemma SmallestOfSameMembers(s: seq<real>, t: seq<real>)
    requires |s| > 0 && |t| > 0
    requires forall x :: x in s <==> x in t
    ensures Smallest(s) == Smallest(t)
  {
    var ms, mt := Smallest(s), Smallest(t);
    var i :| 0 <= i < |t| && t[i] == ms;
    var j :| 0 <= j < |s| && s[j] == mt;
  }

  lemma DiametersMembers(rs: seq<NeoRecord>, x: real)
    ensures x in Diameters(rs) <==> exists r :: r in rs && r.estimatedDiameterMaxMeters == x
  {
    DiametersAt(rs);
    if x in Diameters(rs) {
      var k :| 0 <= k < |rs| && Diameters(rs)[k] == x;
      assert rs[k] in rs;
    }
    if exists r :: r in rs && r.estimatedDiameterMaxMeters == x {
      var r :| r in rs && r.estimatedDiameterMaxMeters == x;
      var k :| 0 <= k < |rs| && rs[k] == r;
      assert Diameters(rs)[k] == x;
    }
  }

  lemma FirstMissesMembers(rs: seq<NeoRecord>, x: real)
    requires AllHaveCloseApproach(rs)
    ensures x in FirstMisses(rs) <==> exists r :: r in rs && HasCloseApproach(r) && r.closeApproachMissKms[0] == x
  {
    FirstMissesAt(rs);
    if x in FirstMisses(rs) {
      var k :| 0 <= k < |rs| && FirstMisses(rs)[k] == x;
      assert rs[k] in rs;
    }
    if exists r :: r in rs && HasCloseApproach(r) && r.closeApproachMissKms[0] == x {
      var r :| r in rs && HasCloseApproach(r) && r.closeApproachMissKms[0] == x;
      var k :| 0 <= k < |rs| && rs[k] == r;
      assert FirstMisses(rs)[k] == x;
    }
  }

  // ---------------------------------------------------------------------
  // Properties of calculate_statistics
  // ---------------------------------------------------------------------

  /** On success the request dates and the declared element count are echoed
      unchanged, whatever the records say. */
  lemma SuccessEchoesRequest(startDate: string, endDate: string, elementCount: int, groups: seq<seq<NeoRecord>>)
    requires WalkSucceeds(groups)
    ensures var r := StatisticsOf(startDate, endDate, StatusOk, Feed(elementCount, groups));
      r.Ok? && r.value.Statistics? &&
      r.value.startDate == startDate && r.value.endDate == endDate &&
      r.value.numAsteroids == elementCount
  {
    WalkSucceedsExactly(groups);
  }

  /** The hazardous count is exact and bounded by the number of records
      walked across all date groups. */
  lemma HazardousCountIsExact(startDate: string, endDate: string, elementCount: int, groups: seq<seq<NeoRecord>>)
    requires WalkSucceeds(groups)
    ensures var r := StatisticsOf(startDate, endDate, StatusOk, Feed(elementCount, groups));
      r.Ok? && r.value.Statistics? &&
      r.value.numPotentiallyHazardous == |HazardousPositions(Flatten(groups))| &&
      r.value.numPotentiallyHazardous == HazardousPerGroup(groups) &&
      r.value.numPotentiallyHazardous <= |Flatten(groups)| &&
      r.value.numPotentiallyHazardous <= TotalRecords(groups)
  {
    WalkSucceedsExactly(groups);
    HazardousCountIsPositions(Flatten(groups));
    HazardousCountBounded(Flatten(groups));
    HazardousCountPerGroup(groups);
    FlattenLength(groups);
  }

  /** The largest diameter bounds every record of every date group and is
      the diameter of one of them. */
  lemma LargestDiameterIsMaximum(startDate: string, endDate: string, elementCount: int, groups: seq<seq<NeoRecord>>)
    requires WalkSucceeds(groups)
    ensures var r := StatisticsOf(startDate, endDate, StatusOk, Feed(elementCount, groups));
      r.Ok? && r.value.Statistics? &&
      (forall i, j :: 0 <= i < |groups| && 0 <= j < |groups[i]| ==>
        groups[i][j].estimatedDiameterMaxMeters <= r.value.largestDiameterMeters) &&
      (exists i, j :: 0 <= i < |groups| && 0 <= j < |groups[i]| &&
        groups[i][j].estimatedDiameterMaxMeters == r.value.largestDiameterMeters)
  {
    WalkSucceedsExactly(groups);
    var rs := Flatten(groups);
    var m := Largest(Diameters(rs));
    DiametersAt(rs);
    forall i, j | 0 <= i < |groups| && 0 <= j < |groups[i]|
      ensures groups[i][j].estimatedDiameterMaxMeters <= m
    {
      FlattenMembers(groups, groups[i][j]);
      var k :| 0 <= k < |rs| && rs[k] == groups[i][j];
      assert Diameters(rs)[k] == groups[i][j].estimatedDiameterMaxMeters;
    }
    var k :| 0 <= k < |rs| && Diameters(rs)[k] == m;
    assert rs[k] in rs;
    FlattenMembers(groups, rs[k]);
    var i :| 0 <= i < |groups| && rs[k] in groups[i];
    var j :| 0 <= j < |groups[i]| && groups[i][j] == rs[k];
  }

  /** The nearest miss is at most every record's first miss distance, in
      every date group, and is the first miss distance of one of them. */
  lemma NearestMissIsMinimum(startDate: string, endDate: string, elementCount: int, groups: seq<seq<NeoRecord>>)
    requires WalkSucceeds(groups)
    ensures var r := StatisticsOf(startDate, endDate, StatusOk, Feed(elementCount, groups));
      r.Ok? && r.value.Statistics? &&
      (forall i, j :: 0 <= i < |groups| && 0 <= j < |groups[i]| ==>
        HasCloseApproach(groups[i][j]) &&
        r.value.nearestMissKms <= groups[i][j].closeApproachMissKms[0]) &&
      (exists i, j :: 0 <= i < |groups| && 0 <= j < |groups[i]| &&
        HasCloseApproach(groups[i][j]) &&
        groups[i][j].closeApproachMissKms[0] == r.value.nearestMissKms)
  {
    WalkSucceedsExactly(groups);
    var rs := Flatten(groups);
    var m := Smallest(FirstMisses(rs));
    FirstMissesAt(rs);
    forall i, j | 0 <= i < |groups| && 0 <= j < |groups[i]|
      ensures HasCloseApproach(groups[i][j]) && m <= groups[i][j].closeApproachMissKms[0]
    {
      FlattenMembers(groups, groups[i][j]);
      var k :| 0 <= k < |rs| && rs[k] == groups[i][j];
      assert FirstMisses(rs)[k] == groups[i][j].closeApproachMissKms[0];
    }
    var k :| 0 <= k < |rs| && FirstMisses(rs)[k] == m;
    assert rs[k] in rs;
    FlattenMembers(groups, rs[k]);
    var i :| 0 <= i < |groups| && rs[k] in groups[i];
    var j :| 0 <= j < |groups[i]| && groups[i][j] == rs[k];
  }

  /** A status other than 200 with an error body yields the error shape with
      its three fields copied verbatim; with a feed body the lookup of
      `code` fails. */
  lemma ErrorBranchCopiesFields(startDate: string, endDate: string, status: int, body: Body)
    requires status != StatusOk
    ensures body.ErrorBody? ==>
      StatisticsOf(startDate, endDate, status, body) == Ok(HttpError(body.code, body.httpError, body.errorMessage))
    ensures body.Feed? ==> StatisticsOf(startDate, endDate, status, body) == Raised(KeyError)
  {
  }

  /** `max`/`min` fail exactly when a 200 feed holds no record at all, that
      is, when every date group is empty. */
  lemma EmptyFeedRaisesValueError(startDate: string, endDate: string, elementCount: int, groups: seq<seq<NeoRecord>>)
    ensures StatisticsOf(startDate, endDate, StatusOk, Feed(elementCount, groups)) == Raised(ValueError)
      <==> forall i :: 0 <= i < |groups| ==> groups[i] == []
  {
    FlattenEmpty(groups);
  }

  /** The outcome depends only on the multiset of records walked: neither
      the date grouping nor the order of keys or records matters. */
  lemma GroupingIsIrrelevant(startDate: string, endDate: string, status: int, elementCount: int,
                             g1: seq<seq<NeoRecord>>, g2: seq<seq<NeoRecord>>)
    requires multiset(Flatten(g1)) == multiset(Flatten(g2))
    ensures StatisticsOf(startDate, endDate, status, Feed(elementCount, g1))
         == StatisticsOf(startDate, endDate, status, Feed(elementCount, g2))
  {
    var a, b := Flatten(g1), Flatten(g2);
    assert |a| == |multiset(a)| == |multiset(b)| == |b|;
    assert forall r :: r in a <==> r in b by {
      forall r ensures r in a <==> r in b {
        assert r in a <==> r in multiset(a);
        assert r in b <==> r in multiset(b);
      }
    }
    HazardousCountPermutation(a, b);
    AllHaveMembers(a);
    AllHaveMembers(b);
    if AllHaveCloseApproach(a) && a != [] {
      forall x ensures x in Diameters(a) <==> x in Diameters(b) {
        DiametersMembers(a, x);
        DiametersMembers(b, x);
      }
      LargestOfSameMembers(Diameters(a), Diameters(b));
      forall x ensures x in FirstMisses(a) <==> x in FirstMisses(b) {
        FirstMissesMembers(a, x);
        FirstMissesMembers(b, x);
      }
      SmallestOfSameMembers(FirstMisses(a), FirstMisses(b));
    }
  }

  /** Two dates with one record each: one hazardous object, the larger
      diameter and the smaller miss distance. */
  lemma TwoDateScenario(startDate: string, endDate: string, elementCount: int)
    ensures var a := NeoRecord(false, 120.5, [500000.2]);
      var b := NeoRecord(true, 340.0, [120000.9]);
      StatisticsOf(startDate, endDate, StatusOk, Feed(elementCount, [[a], [b]]))
        == Ok(Statistics(startDate, endDate, elementCount, 1, 340.0, 120000.9))
  {
    var a := NeoRecord(false, 120.5, [500000.2]);
    var b := NeoRecord(true, 340.0, [120000.9]);
    TwoSingletonGroups(a, b);
    assert Largest([120.5, 340.0]) == 340.0 by {
      assert [120.5, 340.0][..1] == [120.5];
    }
    assert Smallest([500000.2, 120000.9]) == 120000.9 by {
      assert [500000.2, 120000.9][..1] == [500000.2];
    }
  }

  /** Two date groups of one record each are walked as those two records. */
  lemma TwoSingletonGroups(a: NeoRecord, b: NeoRecord)
    requires HasCloseApproach(a) && HasCloseApproach(b)
    ensures Flatten([[a], [b]]) == [a, b]
    ensures AllHaveCloseApproach([a, b])
    ensures HazardousCount([a, b])
      == (if a.isPotentiallyHazardous then 1 else 0) + (if b.isPotentiallyHazardous then 1 else 0)
    ensures Diameters([a, b]) == [a.estimatedDiameterMaxMeters, b.estimatedDiameterMaxMeters]
    ensures FirstMisses([a, b]) == [a.closeApproachMissKms[0], b.closeApproachMissKms[0]]
  {
    var groups := [[a], [b]];
    assert groups[..0] == [] && groups[..1] == [[a]] && groups[..2] == groups;
    FlattenStep(groups, 0);
    FlattenStep(groups, 1);
    assert [] + [a] == [a] && [a] + [b] == [a, b];
    WalkStep([], a);
    WalkStep([a], b);
  }
}
