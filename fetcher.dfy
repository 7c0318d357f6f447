/**
 * The fetcher's choice: the date key of a catalog resource and the choice of
 * the newest EPD-with-SNOMED monthly resources (preferring ZIP archives).
 * Save paths, transfers and the manifest are in Downloads. The catalog
 * request is I/O and is not part of this model; the catalog's answer is the
 * input sequence.
 */
module Fetcher {

  import opened Options
  import opened Text
  import opened Seqs
  import Sorting

  /**
   * A timestamp field as the catalog gives it: its text, and the instant
   * that text denotes (ISO-8601 parsing is not part of this model).
   */
  datatype Stamp = Stamp(text: string, instant: int)

  /**
   * One catalog resource. A field the catalog omits or sends as null is
   * None, since `get` answers None for both; `nulls` names the fields among
   * these six that the record holds with a null value, so that an omitted
   * field and a null one still make different records. `others` stands for
   * every other field of the record. All of them take part in equality
   * (`res not in chosen` compares whole records).
   */
  datatype Resource = Resource(
    name: Option<string>,
    format: Option<string>,
    url: Option<string>,
    created: Option<Stamp>,
    lastModified: Option<Stamp>,
    metadataModified: Option<Stamp>,
    nulls: set<string>,
    others: map<string, string>)

  /** The instant of 1970-01-01T00:00:00Z; instants count from it. */
  const Epoch := 0

  /** Python truthiness of an optional string: present and non-empty. */
  predicate Truthy(s: Option<string>)
  {
    s.Some? && s.value != ""
  }

  /** Python's `s or default`. */
  function OrElse(s: Option<string>, default: string): string
  {
    if Truthy(s) then s.value else default
  }

  /** `resource.get(key)` is truthy for a date field. */
  predicate Given(f: Option<Stamp>)
  {
    f.Some? && f.value.text != ""
  }

  /** The date fields, in the order get_resource_date tries them. */
  function DateFields(r: Resource): seq<Option<Stamp>>
  {
    [r.created, r.lastModified, r.metadataModified]
  }

  /** The position of the first given field; |fields| when none is given. */
  function FirstGiven(fields: seq<Option<Stamp>>): (k: nat)
    ensures k <= |fields|
    ensures k < |fields| ==> Given(fields[k])
    ensures forall j :: 0 <= j < k ==> !Given(fields[j])
  {
    if fields == [] then 0
    else if Given(fields[0]) then 0
    else 1 + FirstGiven(fields[1..])
  }

  /** get_resource_date: the sort key of a resource. */
  function ResourceDate(r: Resource): (d: int)
    ensures Given(r.created) ==> d == r.created.value.instant
    ensures !Given(r.created) && Given(r.lastModified) ==> d == r.lastModified.value.instant
    ensures !Given(r.created) && !Given(r.lastModified) && Given(r.metadataModified)
            ==> d == r.metadataModified.value.instant
    ensures !Given(r.created) && !Given(r.lastModified) && !Given(r.metadataModified)
            ==> d == Epoch
  {
    var fields := DateFields(r);
    var k := FirstGiven(fields);
    assert fields[0] == r.created && fields[1] == r.lastModified && fields[2] == r.metadataModified;
    assert k == 0 || !Given(fields[0]);
    assert k <= 1 || !Given(fields[1]);
    assert k <= 2 || !Given(fields[2]);
    if k < |fields| then fields[k].value.instant else Epoch
  }

  /** The resource name, lower-cased, a missing name read as "". */
  function LowerName(r: Resource): string
  {
    Lower(OrElse(r.name, ""))
  }

  /** The name looks like an EPD SNOMED monthly file. */
  predicate IsCandidate(r: Resource)
  {
    Contains(LowerName(r), "epd") && Contains(LowerName(r), "snomed")
  }

  predicate IsZip(r: Resource)
  {
    Lower(OrElse(r.format, "")) == "zip"
  }

  predicate ZipCandidate(r: Resource)
  {
    IsCandidate(r) && IsZip(r)
  }

  predicate OtherCandidate(r: Resource)
  {
    IsCandidate(r) && !IsZip(r)
  }

  /** sorted(resources, key=get_resource_date, reverse=True) */
  function NewestFirst(resources: seq<Resource>): seq<Resource>
  {
    Sorting.SortDesc(ResourceDate, resources)
  }

  /**
   * What pick_latest returns for a newest-first list, stated by cases
   * rather than by its loops: for a positive quota, the newest ZIP
   * candidates when there are enough of them, otherwise all ZIP candidates
   * followed by the newest distinct other candidates up to the quota. For a
   * quota of zero or less, the first candidate if it is a ZIP, else nothing.
   */
  function Selection(sorted: seq<Resource>, n: int): seq<Resource>
  {
    var candidates := Filter(IsCandidate, sorted);
    var zips := Filter(ZipCandidate, sorted);
    if n <= 0 then
      if candidates != [] && IsZip(candidates[0]) then [candidates[0]] else []
    else if |zips| >= n then zips[..n]
    else zips + Take(Distinct(Filter(OtherCandidate, sorted), {}), n - |zips|)
  }

  /** With fewer ZIP candidates than a positive quota, the other candidates fill it. */
  lemma SelectionFill(sorted: seq<Resource>, n: int)
    requires |Filter(ZipCandidate, sorted)| < n
    ensures var zips := Filter(ZipCandidate, sorted);
            Selection(sorted, n) == zips + Take(Distinct(Filter(OtherCandidate, sorted), {}), n - |zips|)
  {
  }

  /** Every chosen resource is a candidate taken from the list. */
  lemma SelectionCandidates(sorted: seq<Resource>, n: int)
    ensures forall x :: x in Selection(sorted, n) ==> IsCandidate(x) && x in sorted
  {
    var candidates := Filter(IsCandidate, sorted);
    var zips := Filter(ZipCandidate, sorted);
    var others := Distinct(Filter(OtherCandidate, sorted), {});
    var sel := Selection(sorted, n);
    if n <= 0 {
      if candidates != [] {
        assert candidates[0] in candidates;
      }
    } else if |zips| >= n {
      assert forall x :: x in zips[..n] ==> x in zips;
    } else {
      var t := Take(others, n - |zips|);
      assert forall x :: x in t ==> x in others;
      assert sel == zips + t;
    }
  }

  /** pick_latest returns catalog resources only, each one a candidate. */
  lemma ChosenFromCatalog(resources: seq<Resource>, n: int)
    ensures forall x :: x in Selection(NewestFirst(resources), n) ==> IsCandidate(x) && x in resources
  {
    Sorting.SortDescLength(ResourceDate, resources);
    SelectionCandidates(NewestFirst(resources), n);
  }

  /**
   * The quota: at most n resources for n >= 1; for n <= 0 the ZIP pass
   * still appends the first candidate before testing, so one may come back.
   */
  lemma SelectionQuota(sorted: seq<Resource>, n: int)
    ensures |Selection(sorted, n)| <= if n >= 1 then n else 1
    ensures n <= 0 && Filter(IsCandidate, sorted) != [] && IsZip(Filter(IsCandidate, sorted)[0])
            ==> |Selection(sorted, n)| == 1
  {
  }

  /** With a quota of zero, a lone ZIP candidate is still returned. */
  lemma ZeroQuotaReturnsOne(r: Resource)
    requires ZipCandidate(r)
    ensures Selection([r], 0) == [r]
  {
    assert Filter(IsCandidate, [r]) == [r];
  }

  /** ZIP priority: with n ZIP candidates or more, the newest n ZIPs and nothing else. */
  lemma SelectionPrefersZips(sorted: seq<Resource>, n: int)
    requires 1 <= n <= |Filter(ZipCandidate, sorted)|
    ensures |Selection(sorted, n)| == n
    ensures Selection(sorted, n) == Filter(ZipCandidate, sorted)[..n]
    ensures forall x :: x in Selection(sorted, n) ==> IsZip(x)
  {
    var zips := Filter(ZipCandidate, sorted);
    assert forall x :: x in zips[..n] ==> x in zips;
  }

  /**
   * Too few ZIPs: all ZIP candidates first, then distinct non-ZIP candidates,
   * as many as the quota and the catalog allow.
   */
  lemma SelectionFallback(sorted: seq<Resource>, n: int)
    requires 1 <= n && |Filter(ZipCandidate, sorted)| < n
    ensures var zips := Filter(ZipCandidate, sorted);
            var others := Distinct(Filter(OtherCandidate, sorted), {});
            Selection(sorted, n) == zips + others[..(if |zips| + |others| < n then |others| else n - |zips|)]
  {
  }

  /**
   * What the fallback pass adds is new: no repeats among themselves, none
   * equal to a chosen ZIP, and none of them a ZIP.
   */
  lemma FallbackAddsNew(sorted: seq<Resource>, n: int)
    requires 1 <= n && |Filter(ZipCandidate, sorted)| < n
    ensures var zips := Filter(ZipCandidate, sorted);
            var added := Selection(sorted, n)[|zips|..];
            NoDuplicates(added) && forall x :: x in added ==> OtherCandidate(x) && x !in zips
  {
    var zips := Filter(ZipCandidate, sorted);
    var others := Distinct(Filter(OtherCandidate, sorted), {});
    var t := Take(others, n - |zips|);
    SelectionFill(sorted, n);
    assert Selection(sorted, n)[|zips|..] == t;
    TakeMembers(others, n - |zips|);
  }

  /** Both parts of the selection are newest first. */
  lemma SelectionNewestFirst(sorted: seq<Resource>, n: int)
    requires Sorting.Descending(ResourceDate, sorted)
    ensures var zips := Filter(ZipCandidate, sorted);
            var sel := Selection(sorted, n);
            var k := if |zips| < |sel| then |zips| else |sel|;
            Sorting.Descending(ResourceDate, sel[..k]) && Sorting.Descending(ResourceDate, sel[k..])
  {
    var zips := Filter(ZipCandidate, sorted);
    var sel := Selection(sorted, n);
    Sorting.SubsequenceDescending(ResourceDate, zips, sorted);
    if n <= 0 {
      SelectionQuota(sorted, n);
      var k := if |zips| < |sel| then |zips| else |sel|;
      Sorting.ShortDescending(ResourceDate, sel[..k]);
      Sorting.ShortDescending(ResourceDate, sel[k..]);
    } else if |zips| >= n {
      Sorting.DescendingPrefix(ResourceDate, zips, n);
      assert sel[..n] == zips[..n] && sel[n..] == [];
    } else {
      FallbackNewestFirst(sorted, n);
    }
  }

  /** The distinct non-ZIP candidates of a newest-first list are newest first. */
  lemma OthersNewestFirst(sorted: seq<Resource>)
    requires Sorting.Descending(ResourceDate, sorted)
    ensures Sorting.Descending(ResourceDate, Distinct(Filter(OtherCandidate, sorted), {}))
  {
    var others := Filter(OtherCandidate, sorted);
    Sorting.SubsequenceDescending(ResourceDate, others, sorted);
    Sorting.SubsequenceDescending(ResourceDate, Distinct(others, {}), others);
  }

  /** The fallback case of SelectionNewestFirst. */
  lemma FallbackNewestFirst(sorted: seq<Resource>, n: int)
    requires Sorting.Descending(ResourceDate, sorted)
    requires 1 <= n && |Filter(ZipCandidate, sorted)| < n
    ensures var zips := Filter(ZipCandidate, sorted);
            var sel := Selection(sorted, n);
            Sorting.Descending(ResourceDate, sel[|zips|..])
  {
    var zips := Filter(ZipCandidate, sorted);
    var newOnes := Distinct(Filter(OtherCandidate, sorted), {});
    OthersNewestFirst(sorted);
    var t := Take(newOnes, n - |zips|);
    Sorting.DescendingPrefix(ResourceDate, newOnes, |t|);
    SelectionFill(sorted, n);
    assert Selection(sorted, n)[|zips|..] == t;
  }

  /**
   * The scenario of a ZIP from January, a CSV from March and a ZIP from
   * February, all candidates, with a quota of two: the two ZIPs, newest
   * first; the newer CSV is not considered.
   */
  lemma TwoZipsBeatNewerCsv(a: Resource, b: Resource, c: Resource)
    requires ZipCandidate(a) && OtherCandidate(b) && ZipCandidate(c)
    requires ResourceDate(a) < ResourceDate(c) < ResourceDate(b)
    ensures Selection(NewestFirst([a, b, c]), 2) == [c, a]
  {
    Sorting.SortThree(ResourceDate, a, b, c);
    PreferZipsBehindCsv(b, c, a);
  }

  /**
   * A record and the same record with `format` sent as null are different
   * records, so the fallback keeps both, although `get` reads the same
   * fields from them.
   */
  lemma NullFieldIsAnotherRecord(r: Resource)
    requires IsCandidate(r) && r.format.None? && "format" !in r.nulls
    ensures var q := r.(nulls := r.nulls + {"format"});
            Selection([r, q], 2) == [r, q]
  {
    var q := r.(nulls := r.nulls + {"format"});
    assert q != r by {
      assert "format" in q.nulls;
    }
    assert OtherCandidate(r) && OtherCandidate(q);
    assert [r, q][1..] == [q] && [q][1..] == [];
    assert Filter(ZipCandidate, [q]) == [];
    assert Filter(ZipCandidate, [r, q]) == [];
    assert Filter(OtherCandidate, [q]) == [q];
    assert Filter(OtherCandidate, [r, q]) == [r] + [q];
    assert Distinct([q], {r}) == [q];
    assert Distinct([r, q], {}) == [r] + [q];
    assert Take([r, q], 2) == [r, q];
  }

  /** The selection step of TwoZipsBeatNewerCsv, on the list already sorted. */
  lemma PreferZipsBehindCsv(b: Resource, c: Resource, a: Resource)
    requires OtherCandidate(b) && ZipCandidate(c) && ZipCandidate(a)
    ensures Selection([b, c, a], 2) == [c, a]
  {
    FilterThree(ZipCandidate, b, c, a);
    SelectionPrefersZips([b, c, a], 2);
    assert [c, a][..2] == [c, a];
  }

  /** No ZIP candidate means no candidate among those filtered to ZIPs. */
  lemma NoCandidateNoZip(s: seq<Resource>)
    requires Filter(IsCandidate, s) == []
    ensures Filter(ZipCandidate, s) == [] && Filter(OtherCandidate, s) == []
  {
  }

  /**
   * Offering every candidate after the ZIP candidates are already chosen
   * adds exactly the distinct non-ZIP candidates.
   */
  lemma {:induction false} DistinctCandidates(s: seq<Resource>, zips: set<Resource>, seen: set<Resource>)
    requires forall x :: x in s && ZipCandidate(x) ==> x in zips
    requires forall z :: z in zips ==> ZipCandidate(z)
    ensures Distinct(Filter(IsCandidate, s), zips + seen) == Distinct(Filter(OtherCandidate, s), seen)
  {
    if s != [] {
      var x := s[0];
      var cs, os := Filter(IsCandidate, s[1..]), Filter(OtherCandidate, s[1..]);
      if !IsCandidate(x) {
        DistinctCandidates(s[1..], zips, seen);
      } else if IsZip(x) {
        assert Filter(IsCandidate, s) == [x] + cs;
        assert Filter(OtherCandidate, s) == os;
        assert ([x] + cs)[1..] == cs;
        DistinctCandidates(s[1..], zips, seen);
      } else {
        assert x !in zips;
        assert Filter(IsCandidate, s) == [x] + cs;
        assert Filter(OtherCandidate, s) == [x] + os;
        assert ([x] + cs)[1..] == cs && ([x] + os)[1..] == os;
        if x in seen {
          DistinctCandidates(s[1..], zips, seen);
        } else {
          DistinctCandidates(s[1..], zips, seen + {x});
          assert zips + seen + {x} == zips + (seen + {x});
        }
      }
    }
  }

  /** The ZIP candidates of a list, as a set, satisfy DistinctCandidates. */
  lemma ZipsCover(s: seq<Resource>)
    ensures var zips := Elems(Filter(ZipCandidate, s));
            Distinct(Filter(IsCandidate, s), zips) == Distinct(Filter(OtherCandidate, s), {})
  {
    var zips := Elems(Filter(ZipCandidate, s));
    DistinctCandidates(s, zips, {});
    assert zips + {} == zips;
  }

  /** The first pass returns as soon as the quota is met: by then its result is the selection. */
  lemma ZipPassQuotaMet(sorted: seq<Resource>, i: int, n: int)
    requires 0 <= i < |sorted| && IsCandidate(sorted[i])
    requires ZipPassOpen(sorted, i, n)
    requires |ZipsSeen(sorted, i + 1)| >= n
    ensures ZipsSeen(sorted, i + 1) == Selection(sorted, n)
  {
    ZipStep(sorted, i, n);
    if Filter(IsCandidate, sorted[..i]) == [] {
      NoCandidateNoZip(sorted[..i]);
    }
    if n <= 0 {
      ZipQuotaFirst(sorted, i, n);
    } else {
      ZipQuotaFilled(sorted, i + 1, n);
    }
  }

  /** For a quota of zero or less the ZIP pass returns at the first candidate. */
  lemma ZipQuotaFirst(sorted: seq<Resource>, i: int, n: int)
    requires 0 <= i < |sorted| && IsCandidate(sorted[i])
    requires Filter(IsCandidate, sorted[..i]) == [] && n <= 0
    ensures ZipsSeen(sorted, i + 1) == Selection(sorted, n)
  {
    var res := sorted[i];
    TakeSnoc(sorted, i);
    FilterSnoc(IsCandidate, sorted[..i], res);
    FilterSnoc(ZipCandidate, sorted[..i], res);
    NoCandidateNoZip(sorted[..i]);
    TakeDrop(sorted, i + 1);
    FilterAppend(IsCandidate, sorted[..i + 1], sorted[i + 1..]);
    assert Filter(IsCandidate, sorted)[0] == res;
  }

  /** Once k resources have yielded exactly n ZIP candidates, those are the selection. */
  lemma ZipQuotaFilled(sorted: seq<Resource>, k: int, n: int)
    requires 0 <= k <= |sorted| && 1 <= n && |ZipsSeen(sorted, k)| == n
    ensures ZipsSeen(sorted, k) == Selection(sorted, n)
  {
    var front := ZipsSeen(sorted, k);
    var rest := Filter(ZipCandidate, sorted[k..]);
    TakeDrop(sorted, k);
    FilterAppend(ZipCandidate, sorted[..k], sorted[k..]);
    assert Filter(ZipCandidate, sorted) == front + rest;
    assert (front + rest)[..n] == front;
  }

  /** A resource whose name does not match changes neither filtered prefix. */
  lemma SkipStep(sorted: seq<Resource>, i: int)
    requires 0 <= i < |sorted| && !IsCandidate(sorted[i])
    ensures Filter(ZipCandidate, sorted[..i + 1]) == Filter(ZipCandidate, sorted[..i])
    ensures Filter(IsCandidate, sorted[..i + 1]) == Filter(IsCandidate, sorted[..i])
  {
    TakeSnoc(sorted, i);
    FilterSnoc(ZipCandidate, sorted[..i], sorted[i]);
    FilterSnoc(IsCandidate, sorted[..i], sorted[i]);
  }

  /**
   * What the ZIP pass has chosen after offering sorted[..i]: the ZIP
   * candidates among them, newest first.
   */
  ghost function ZipsSeen(sorted: seq<Resource>, i: int): seq<Resource>
    requires 0 <= i <= |sorted|
  {
    Filter(ZipCandidate, sorted[..i])
  }

  /** The ZIP pass has not returned after offering sorted[..i]. */
  ghost predicate ZipPassOpen(sorted: seq<Resource>, i: int, n: int)
    requires 0 <= i <= |sorted|
  {
    Filter(IsCandidate, sorted[..i]) == [] || |ZipsSeen(sorted, i)| < n
  }

  /** Before the ZIP pass has offered anything it holds nothing and goes on. */
  lemma ZipStart(sorted: seq<Resource>, n: int)
    ensures ZipsSeen(sorted, 0) == [] && ZipPassOpen(sorted, 0, n)
  {
    assert sorted[..0] == [];
  }

  /** A resource whose name does not match is passed over by the ZIP pass. */
  lemma ZipSkip(sorted: seq<Resource>, i: int, n: int)
    requires 0 <= i < |sorted| && !IsCandidate(sorted[i])
    requires ZipPassOpen(sorted, i, n)
    ensures ZipsSeen(sorted, i + 1) == ZipsSeen(sorted, i) && ZipPassOpen(sorted, i + 1, n)
  {
    SkipStep(sorted, i);
  }

  /** A candidate offered to the ZIP pass: appended exactly when it is a ZIP. */
  lemma ZipStep(sorted: seq<Resource>, i: int, n: int)
    requires 0 <= i < |sorted| && IsCandidate(sorted[i])
    ensures ZipsSeen(sorted, i + 1)
            == ZipsSeen(sorted, i) + if IsZip(sorted[i]) then [sorted[i]] else []
    ensures |ZipsSeen(sorted, i + 1)| < n ==> ZipPassOpen(sorted, i + 1, n)
  {
    TakeSnoc(sorted, i);
    FilterSnoc(ZipCandidate, sorted[..i], sorted[i]);
  }

  /** The ZIP pass offered everything without returning. */
  lemma ZipPassEnd(sorted: seq<Resource>, n: int)
    requires ZipPassOpen(sorted, |sorted|, n)
    ensures ZipsSeen(sorted, |sorted|) == Filter(ZipCandidate, sorted)
    ensures Filter(IsCandidate, sorted) == [] || |Filter(ZipCandidate, sorted)| < n
  {
    assert sorted[..|sorted|] == sorted;
  }

  /**
   * What the fallback pass has chosen after offering sorted[..j]: every ZIP
   * candidate, then each other candidate seen so far, once.
   */
  ghost function Offered(sorted: seq<Resource>, j: int, zips: seq<Resource>, z: set<Resource>): seq<Resource>
    requires 0 <= j <= |sorted|
  {
    zips + Distinct(Filter(IsCandidate, sorted[..j]), z)
  }

  /** Before the fallback pass has offered anything it holds just the ZIPs. */
  lemma FallbackStart(sorted: seq<Resource>, zips: seq<Resource>, z: set<Resource>)
    ensures Offered(sorted, 0, zips, z) == zips
  {
    assert sorted[..0] == [];
  }

  /** A resource whose name does not match is passed over by the fallback pass. */
  lemma FallbackSkip(sorted: seq<Resource>, j: int, zips: seq<Resource>, z: set<Resource>)
    requires 0 <= j < |sorted| && !IsCandidate(sorted[j])
    ensures Offered(sorted, j + 1, zips, z) == Offered(sorted, j, zips, z)
  {
    SkipStep(sorted, j);
  }

  /** One candidate offered to the fallback pass: appended exactly when not chosen yet. */
  lemma FallbackStep(sorted: seq<Resource>, j: int, zips: seq<Resource>, z: set<Resource>)
    requires 0 <= j < |sorted| && IsCandidate(sorted[j])
    requires z == Elems(zips)
    ensures var chosen := Offered(sorted, j, zips, z);
            Offered(sorted, j + 1, zips, z)
            == if sorted[j] in chosen then chosen else chosen + [sorted[j]]
  {
    var before := Filter(IsCandidate, sorted[..j]);
    TakeSnoc(sorted, j);
    FilterSnoc(IsCandidate, sorted[..j], sorted[j]);
    DistinctSnoc(before, sorted[j], z);
  }

  /** The fallback pass returns as soon as the quota is met: by then its result is the selection. */
  lemma FallbackQuotaMet(sorted: seq<Resource>, j: int, n: int, zips: seq<Resource>, z: set<Resource>)
    requires 0 <= j < |sorted| && IsCandidate(sorted[j])
    requires zips == Filter(ZipCandidate, sorted) && z == Elems(zips)
    requires Filter(IsCandidate, sorted) == [] || |Offered(sorted, j, zips, z)| < n
    requires |Offered(sorted, j + 1, zips, z)| >= n
    ensures Offered(sorted, j + 1, zips, z) == Selection(sorted, n)
  {
    var front := Filter(IsCandidate, sorted[..j + 1]);
    var upto := Distinct(front, z);
    var rest := Distinct(Filter(IsCandidate, sorted[j + 1..]), z + Elems(front));
    assert sorted[j] in Filter(IsCandidate, sorted);
    FallbackStep(sorted, j, zips, z);
    assert |zips| + |upto| == n;
    FallbackSplit(sorted, j + 1, z);
    ZipsCover(sorted);
    TakeAppend(upto, rest);
    SelectionFill(sorted, n);
  }

  /** The candidates of the whole list, de-duplicated, start with those of its first k resources. */
  lemma FallbackSplit(sorted: seq<Resource>, k: int, z: set<Resource>)
    requires 0 <= k <= |sorted|
    ensures var front := Filter(IsCandidate, sorted[..k]);
            Distinct(Filter(IsCandidate, sorted), z)
            == Distinct(front, z) + Distinct(Filter(IsCandidate, sorted[k..]), z + Elems(front))
  {
    TakeDrop(sorted, k);
    FilterAppend(IsCandidate, sorted[..k], sorted[k..]);
    DistinctAppend(Filter(IsCandidate, sorted[..k]), Filter(IsCandidate, sorted[k..]), z);
  }

  /** Both passes ran to the end: every candidate is chosen once. */
  lemma FallbackExhausted(sorted: seq<Resource>, n: int, zips: seq<Resource>, z: set<Resource>)
    requires zips == Filter(ZipCandidate, sorted) && z == Elems(zips)
    requires Filter(IsCandidate, sorted) == [] || |Offered(sorted, |sorted|, zips, z)| < n
    ensures Offered(sorted, |sorted|, zips, z) == Selection(sorted, n)
  {
    assert sorted[..|sorted|] == sorted;
    ZipsCover(sorted);
    if Filter(IsCandidate, sorted) == [] {
      NoCandidateNoZip(sorted);
    }
  }

  /**
   * pick_latest: sort newest first, run the ZIP pass, and when that did
   * not return early, run the fallback pass on what it chose.
   */
  method PickLatest(resources: seq<Resource>, n: int) returns (chosen: seq<Resource>)
    ensures chosen == Selection(NewestFirst(resources), n)
  {
    var sorted := NewestFirst(resources);
    var quotaMet;
    chosen, quotaMet := ZipPass(sorted, n);
    if quotaMet {
      return;
    }
    chosen := FallbackPass(sorted, n, chosen);
  }

  /**
   * The first loop of pick_latest: append each ZIP candidate, newest
   * first, and stop (quotaMet) as soon as the quota is met; the quota is
   * tested after each candidate, ZIP or not.
   */
  method ZipPass(sorted: seq<Resource>, n: int) returns (chosen: seq<Resource>, quotaMet: bool)
    ensures quotaMet ==> chosen == Selection(sorted, n)
    ensures !quotaMet ==> chosen == Filter(ZipCandidate, sorted)
    ensures !quotaMet ==> Filter(IsCandidate, sorted) == [] || |chosen| < n
  {
    chosen := [];
    var i := 0;
    ZipStart(sorted, n);
    while i < |sorted|
      invariant 0 <= i <= |sorted|
      invariant chosen == ZipsSeen(sorted, i)
      invariant ZipPassOpen(sorted, i, n)
    {
      var res := sorted[i];
      var name := Lower(OrElse(res.name, ""));
      var fmt := Lower(OrElse(res.format, ""));
      if !Contains(name, "epd") || !Contains(name, "snomed") {
        ZipSkip(sorted, i, n);
        i := i + 1;
        continue;
      }
      ZipStep(sorted, i, n);
      if fmt == "zip" {
        chosen := chosen + [res];
      }
      if |chosen| >= n {
        ZipPassQuotaMet(sorted, i, n);
        return chosen, true;
      }
      i := i + 1;
    }
    ZipPassEnd(sorted, n);
    quotaMet := false;
  }

  /**
   * The second loop of pick_latest: offer every candidate, newest first,
   * append those not chosen yet, and stop as soon as the quota is met.
   */
  method FallbackPass(sorted: seq<Resource>, n: int, zips: seq<Resource>) returns (chosen: seq<Resource>)
    requires zips == Filter(ZipCandidate, sorted)
    requires Filter(IsCandidate, sorted) == [] || |zips| < n
    ensures chosen == Selection(sorted, n)
  {
    ghost var z := Elems(zips);
    chosen := zips;
    var j := 0;
    FallbackStart(sorted, zips, z);
    while j < |sorted|
      invariant 0 <= j <= |sorted|
      invariant chosen == Offered(sorted, j, zips, z)
      invariant Filter(IsCandidate, sorted) == [] || |chosen| < n
    {
      var res := sorted[j];
      var name := Lower(OrElse(res.name, ""));
      if !Contains(name, "epd") || !Contains(name, "snomed") {
        FallbackSkip(sorted, j, zips, z);
        j := j + 1;
        continue;
      }
      FallbackStep(sorted, j, zips, z);
      if res !in chosen {
        chosen := chosen + [res];
      }
      if |chosen| >= n {
        FallbackQuotaMet(sorted, j, n, zips, z);
        return;
      }
      j := j + 1;
    }
    FallbackExhausted(sorted, n, zips, z);
  }
}
