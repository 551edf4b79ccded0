/**
 * The admin inbox of contact-form submissions: the search and status filter, the
 * "N New" badge, status marking, and the deferred delete with a single undo slot.
 *
 * Remote calls to the hosted database are not executed: their outcome is a
 * parameter of the event that issues them, and the calls themselves are recorded
 * in ghost logs. The response of a remote call is applied right after the
 * synchronous part of the handler that issued it.
 */
module ContactInbox {
  import opened Wrappers
  import opened Text
  import opened Lists

  type Id = string

  datatype Status = New | Read | Replied

  /** The status tabs above the list: everything, or one status. */
  datatype StatusFilter = All | Only(status: Status)

  /** A contact-form record. `createdAt` is the creation timestamp as an integer;
      the text fields the search reads may be missing in stored rows. */
  datatype Submission = Submission(
    id: Id,
    createdAt: int,
    name: Option<string>,
    email: Option<string>,
    company: Option<string>,
    inquiryType: Option<string>,
    subject: Option<string>,
    message: string,
    status: Status)

  /** Outcome of the list query: rows (possibly `null`) or an error. */
  datatype FetchResult = Fetched(data: Option<seq<Submission>>) | FetchFailed

  /** A status update sent to the database. */
  datatype StatusUpdate = StatusUpdate(id: Id, status: Status)

  // ---------------------------------------------------------------------------
  // Identity

  function Ids(subs: seq<Submission>): set<Id> {
    set s | s in subs :: s.id
  }

  /** Within the working set every id occurs once. */
  ghost predicate UniqueIds(subs: seq<Submission>) {
    forall i, j :: 0 <= i < j < |subs| ==> subs[i].id != subs[j].id
  }

  /** `subs.find(s => s.id === id)`: the first submission with that id. */
  function FindById(subs: seq<Submission>, id: Id): (r: Option<Submission>)
    ensures r.None? <==> id !in Ids(subs)
    ensures r.Some? ==> r.value in subs && r.value.id == id
    ensures r.Some? && UniqueIds(subs) ==> forall s :: s in subs && s.id == id ==> s == r.value
    ensures r.Some? ==> exists k :: 0 <= k < |subs| && subs[k] == r.value && forall j :: 0 <= j < k ==> subs[j].id != id
  {
    if subs == [] then None
    else if subs[0].id == id then Some(subs[0])
    else
      assert Ids(subs) == {subs[0].id} + Ids(subs[1..]) by {
        assert subs == [subs[0]] + subs[1..];
      }
      var r := FindById(subs[1..], id);
      FirstMatchStep(subs, id, r);
      r
  }

  /** A first match in the tail, after a head with another id, is a first match
      in the whole list. */
  lemma FirstMatchStep(subs: seq<Submission>, id: Id, r: Option<Submission>)
    requires subs != [] && subs[0].id != id
    requires r.Some? ==> exists k :: 0 <= k < |subs| - 1 && subs[1..][k] == r.value && forall j :: 0 <= j < k ==> subs[1..][j].id != id
    ensures r.Some? ==> exists k :: 0 <= k < |subs| && subs[k] == r.value && forall j :: 0 <= j < k ==> subs[j].id != id
  {
    if r.Some? {
      var k :| 0 <= k < |subs| - 1 && subs[1..][k] == r.value && forall j :: 0 <= j < k ==> subs[1..][j].id != id;
      forall j | 0 <= j < k + 1 ensures subs[j].id != id {
        if j > 0 {
          assert subs[j] == subs[1..][j - 1];
        }
      }
    }
  }

  /** The list query's rows, `data || []`. */
  function Rows(result: FetchResult): (r: seq<Submission>)
    requires result.Fetched?
    ensures result.data.Some? ==> r == result.data.value
    ensures result.data.None? ==> r == []
  {
    result.data.GetOr([])
  }

  // ---------------------------------------------------------------------------
  // The filtered view and the badge

  /** The search box: the lower-cased term occurs in the lower-cased name, email or
      subject, a missing field reading as the empty string. */
  predicate MatchesSearch(s: Submission, term: string)
    ensures term == "" ==> MatchesSearch(s, term)
  {
    var t := Lower(term);
    EmptyIsSubstring(Lower(s.name.GetOr("")));
    IsSubstring(t, Lower(s.name.GetOr(""))) ||
    IsSubstring(t, Lower(s.email.GetOr(""))) ||
    IsSubstring(t, Lower(s.subject.GetOr("")))
  }

  /** The status tabs. */
  predicate MatchesFilter(s: Submission, filter: StatusFilter)
    ensures MatchesFilter(s, filter) <==> filter == All || filter == Only(s.status)
  {
    filter.All? || s.status == filter.status
  }

  /** The list the admin sees: an order-preserving subsequence holding exactly the
      submissions that match both the search and the status filter. */
  function FilteredSubmissions(subs: seq<Submission>, term: string, filter: StatusFilter): (r: seq<Submission>)
    ensures IsSubsequence(r, subs)
    ensures forall i :: 0 <= i < |r| ==> r[i] in subs && MatchesSearch(r[i], term) && MatchesFilter(r[i], filter)
    ensures forall i :: 0 <= i < |subs| && MatchesSearch(subs[i], term) && MatchesFilter(subs[i], filter) ==> subs[i] in r
    ensures multiset(r) <= multiset(subs)
    ensures forall i :: 0 <= i < |subs| && MatchesSearch(subs[i], term) && MatchesFilter(subs[i], filter) ==>
              multiset(r)[subs[i]] == multiset(subs)[subs[i]]
  {
    Filter(subs, (s: Submission) => MatchesSearch(s, term) && MatchesFilter(s, filter))
  }

  /** With an empty search box on the "all" tab the whole list is shown. */
  lemma {:induction false} UnfilteredViewIsWhole(subs: seq<Submission>)
    ensures FilteredSubmissions(subs, "", All) == subs
  {
    forall i | 0 <= i < |subs|
      ensures MatchesSearch(subs[i], "") && MatchesFilter(subs[i], All)
    {
      EmptyIsSubstring(Lower(subs[i].name.GetOr("")));
    }
    FilterKeepsAll(subs, (s: Submission) => MatchesSearch(s, "") && MatchesFilter(s, All));
  }

  predicate IsNew(s: Submission) {
    s.status == New
  }

  /** The "N New" badge: how many submissions have status `new`. */
  function NewCount(subs: seq<Submission>): (n: nat)
    ensures n <= |subs|
    ensures n == 0 <==> forall i :: 0 <= i < |subs| ==> subs[i].status != New
  {
    if subs == [] then 0
    else (if IsNew(subs[0]) then 1 else 0) + NewCount(subs[1..])
  }

  /** The badge is the length of `filter(s => s.status === 'new')`. */
  lemma {:induction false} NewCountIsFilter(subs: seq<Submission>)
    ensures NewCount(subs) == |Filter(subs, IsNew)|
  {
    if subs != [] {
      FilterCons(subs, IsNew);
      NewCountIsFilter(subs[1..]);
    }
  }

  // ---------------------------------------------------------------------------
  // Status marking

  /** `subs.map(s => s.id === id ? { ...s, status } : s)`. */
  function SetStatus(subs: seq<Submission>, id: Id, status: Status): (r: seq<Submission>)
    ensures |r| == |subs|
    ensures forall i :: 0 <= i < |subs| && subs[i].id == id ==> r[i] == subs[i].(status := status)
    ensures forall i :: 0 <= i < |subs| && subs[i].id != id ==> r[i] == subs[i]
  {
    if subs == [] then []
    else [if subs[0].id == id then subs[0].(status := status) else subs[0]] + SetStatus(subs[1..], id, status)
  }

  /** Marking keeps the set of ids, and their uniqueness. */
  lemma SetStatusKeepsIds(subs: seq<Submission>, id: Id, status: Status)
    ensures Ids(SetStatus(subs, id, status)) == Ids(subs)
    ensures UniqueIds(subs) ==> UniqueIds(SetStatus(subs, id, status))
  {
    var r := SetStatus(subs, id, status);
    forall x | x in Ids(r) ensures x in Ids(subs) {
      var i :| 0 <= i < |r| && r[i].id == x;
      assert subs[i] in subs;
    }
    forall x | x in Ids(subs) ensures x in Ids(r) {
      var i :| 0 <= i < |subs| && subs[i].id == x;
      assert r[i] in r;
    }
  }

  /** Marking an id that no row carries changes nothing. */
  lemma {:induction false} SetStatusAbsent(subs: seq<Submission>, id: Id, status: Status)
    requires id !in Ids(subs)
    ensures SetStatus(subs, id, status) == subs
  {
    if subs != [] {
      assert subs[0] in subs;
      assert Ids(subs[1..]) <= Ids(subs) by {
        forall x | x in Ids(subs[1..]) ensures x in Ids(subs) {
          var i :| 0 <= i < |subs| - 1 && subs[1..][i].id == x;
          assert subs[i + 1].id == x;
        }
      }
      SetStatusAbsent(subs[1..], id, status);
    }
  }

  /** One step of marking: the head is marked or kept, the tail is marked. */
  lemma SetStatusCons(subs: seq<Submission>, id: Id, status: Status)
    requires subs != []
    ensures NewCount(SetStatus(subs, id, status)) ==
            (if subs[0].id == id then (if status == New then 1 else 0) else (if IsNew(subs[0]) then 1 else 0))
            + NewCount(SetStatus(subs[1..], id, status))
  {
    var r := SetStatus(subs, id, status);
    assert r[1..] == SetStatus(subs[1..], id, status);
  }

  /** With unique ids, the head's id is not in the tail and the tail is unique. */
  lemma UniqueTail(subs: seq<Submission>)
    requires UniqueIds(subs) && subs != []
    ensures subs[0].id !in Ids(subs[1..]) && UniqueIds(subs[1..])
  {
  }

  /** Badge arithmetic: with unique ids, setting the status of the submission at
      `k` moves the badge by one when it leaves or enters `new`, else not at all. */
  lemma {:induction false} SetStatusNewCount(subs: seq<Submission>, k: nat, status: Status)
    requires UniqueIds(subs) && k < |subs|
    ensures NewCount(SetStatus(subs, subs[k].id, status)) ==
            NewCount(subs) - (if subs[k].status == New then 1 else 0) + (if status == New then 1 else 0)
  {
    var id := subs[k].id;
    SetStatusCons(subs, id, status);
    UniqueTail(subs);
    if k == 0 {
      SetStatusAbsent(subs[1..], id, status);
    } else {
      assert subs[1..][k - 1] == subs[k];
      SetStatusNewCount(subs[1..], k - 1, status);
    }
  }

  // ---------------------------------------------------------------------------
  // Undo re-sorting

  /** Newest first. */
  ghost predicate SortedByDateDesc(subs: seq<Submission>) {
    forall i, j :: 0 <= i < j < |subs| ==> subs[i].createdAt >= subs[j].createdAt
  }

  /** No submission is newer than `bound`. */
  ghost predicate NoneNewerThan(subs: seq<Submission>, bound: int) {
    forall i :: 0 <= i < |subs| ==> subs[i].createdAt <= bound
  }

  /** Where a submission goes among others: before the first one that is not newer. */
  function InsertionPoint(x: Submission, subs: seq<Submission>): (k: nat)
    ensures k <= |subs|
    ensures forall j :: 0 <= j < k ==> subs[j].createdAt > x.createdAt
    ensures k < |subs| ==> subs[k].createdAt <= x.createdAt
  {
    if subs == [] || subs[0].createdAt <= x.createdAt then 0
    else 1 + InsertionPoint(x, subs[1..])
  }

  /** One step of a stable sort by the comparator `b.created_at - a.created_at`:
      `x` stood before every element of `subs`, so among equal timestamps it
      stays first. */
  function InsertByDate(x: Submission, subs: seq<Submission>): seq<Submission> {
    if subs == [] || subs[0].createdAt <= x.createdAt then [x] + subs
    else [subs[0]] + InsertByDate(x, subs[1..])
  }

  /** The insertion step places `x` at the insertion point, before the first
      submission that is not newer, and keeps the others in order. */
  lemma {:induction false} InsertByDateSplit(x: Submission, subs: seq<Submission>)
    ensures InsertByDate(x, subs) == subs[..InsertionPoint(x, subs)] + [x] + subs[InsertionPoint(x, subs)..]
  {
    if subs != [] && subs[0].createdAt > x.createdAt {
      InsertByDateSplit(x, subs[1..]);
      var k := InsertionPoint(x, subs[1..]);
      assert subs[..k + 1] == [subs[0]] + subs[1..][..k];
      assert subs[k + 1..] == subs[1..][k..];
    }
  }

  /** Inserting adds exactly the inserted submission. */
  lemma {:induction false} InsertMultiset(x: Submission, subs: seq<Submission>)
    ensures multiset(InsertByDate(x, subs)) == multiset(subs) + multiset{x}
  {
    if subs != [] && subs[0].createdAt > x.createdAt {
      InsertMultiset(x, subs[1..]);
      assert subs == [subs[0]] + subs[1..];
    }
  }

  /** Inserting a submission that is not newer than `bound` into submissions that
      are not newer than `bound` gives submissions that are not newer. */
  lemma {:induction false} InsertKeepsBound(x: Submission, subs: seq<Submission>, bound: int)
    requires x.createdAt <= bound && NoneNewerThan(subs, bound)
    ensures NoneNewerThan(InsertByDate(x, subs), bound)
  {
    if subs != [] && subs[0].createdAt > x.createdAt {
      InsertKeepsBound(x, subs[1..], bound);
      var t := InsertByDate(x, subs[1..]);
      assert InsertByDate(x, subs) == [subs[0]] + t;
    }
  }

  /** Inserting into a list in date order keeps it in date order. */
  lemma {:induction false} InsertKeepsSorted(x: Submission, subs: seq<Submission>)
    requires SortedByDateDesc(subs)
    ensures SortedByDateDesc(InsertByDate(x, subs))
  {
    if subs == [] || subs[0].createdAt <= x.createdAt {
      var r := [x] + subs;
      forall i, j | 0 <= i < j < |r| ensures r[i].createdAt >= r[j].createdAt {
        if i == 0 {
          assert r[j] == subs[j - 1];
        } else {
          assert r[i] == subs[i - 1] && r[j] == subs[j - 1];
        }
      }
    } else {
      var tail := subs[1..];
      InsertKeepsSorted(x, tail);
      InsertKeepsBound(x, tail, subs[0].createdAt);
      var t := InsertByDate(x, tail);
      var r := [subs[0]] + t;
      forall i, j | 0 <= i < j < |r| ensures r[i].createdAt >= r[j].createdAt {
        if i == 0 {
          assert r[j] == t[j - 1];
        } else {
          assert r[i] == t[i - 1] && r[j] == t[j - 1];
        }
      }
    }
  }

  /** `subs.sort((a, b) => b.created_at - a.created_at)`, a stable sort: newest
      first, as long as its input. */
  function SortByDateDesc(subs: seq<Submission>): (r: seq<Submission>)
    ensures |r| == |subs|
    ensures SortedByDateDesc(r)
  {
    if subs == [] then []
    else
      var rest := SortByDateDesc(subs[1..]);
      InsertKeepsSorted(subs[0], rest);
      InsertMultiset(subs[0], rest);
      assert |multiset(InsertByDate(subs[0], rest))| == |rest| + 1;
      InsertByDate(subs[0], rest)
  }

  /** The sort only reorders: it is a permutation of its input. */
  lemma {:induction false} SortIsPermutation(subs: seq<Submission>)
    ensures multiset(SortByDateDesc(subs)) == multiset(subs)
  {
    if subs != [] {
      SortIsPermutation(subs[1..]);
      InsertMultiset(subs[0], SortByDateDesc(subs[1..]));
      assert subs == [subs[0]] + subs[1..];
    }
  }

  /** Sorting an already sorted list gives it back unchanged. */
  lemma {:induction false} SortedIsFixed(subs: seq<Submission>)
    requires SortedByDateDesc(subs)
    ensures SortByDateDesc(subs) == subs
  {
    if subs != [] {
      SortedIsFixed(subs[1..]);
      assert subs == [subs[0]] + subs[1..];
    }
  }

  /** Undo on a list in date order puts the restored submission back where the
      order says, every other submission keeping its relative order. */
  lemma UndoPosition(x: Submission, subs: seq<Submission>)
    requires SortedByDateDesc(subs)
    ensures SortByDateDesc([x] + subs) == subs[..InsertionPoint(x, subs)] + [x] + subs[InsertionPoint(x, subs)..]
  {
    SortedIsFixed(subs);
    assert ([x] + subs)[1..] == subs;
    InsertByDateSplit(x, subs);
  }

  /** No submission carries `id`: the same as `id !in Ids(subs)`, stated by
      index so that the inductive proofs below can unfold it one row at a time. */
  ghost predicate IdAbsent(subs: seq<Submission>, id: Id) {
    forall i :: 0 <= i < |subs| ==> subs[i].id != id
  }

  /** Inserting a submission without `id` into submissions without `id` gives
      submissions without `id`. */
  lemma {:induction false} InsertKeepsIdAbsent(x: Submission, subs: seq<Submission>, id: Id)
    requires x.id != id && IdAbsent(subs, id)
    ensures IdAbsent(InsertByDate(x, subs), id)
  {
    if subs != [] && subs[0].createdAt > x.createdAt {
      InsertKeepsIdAbsent(x, subs[1..], id);
      assert InsertByDate(x, subs) == [subs[0]] + InsertByDate(x, subs[1..]);
    }
  }

  /** Inserting a submission with a fresh id keeps ids unique. */
  lemma {:induction false} InsertKeepsIds(x: Submission, subs: seq<Submission>)
    requires UniqueIds(subs) && x.id !in Ids(subs)
    ensures UniqueIds(InsertByDate(x, subs))
  {
    assert IdAbsent(subs, x.id) by {
      forall i | 0 <= i < |subs| ensures subs[i].id != x.id {
        assert subs[i] in subs;
      }
    }
    InsertFreshKeepsUnique(x, subs);
  }

  /** The inductive core of the above: an insertion keeps ids unique when the
      inserted id is absent. */
  lemma {:induction false} InsertFreshKeepsUnique(x: Submission, subs: seq<Submission>)
    requires UniqueIds(subs) && IdAbsent(subs, x.id)
    ensures UniqueIds(InsertByDate(x, subs))
  {
    if subs == [] || subs[0].createdAt <= x.createdAt {
      var r := [x] + subs;
      forall i, j | 0 <= i < j < |r| ensures r[i].id != r[j].id {
        if i == 0 {
          assert r[j] == subs[j - 1];
        } else {
          assert r[i] == subs[i - 1] && r[j] == subs[j - 1];
        }
      }
    } else {
      var tail := subs[1..];
      InsertFreshKeepsUnique(x, tail);
      InsertKeepsIdAbsent(x, tail, subs[0].id);
      var t := InsertByDate(x, tail);
      var r := [subs[0]] + t;
      forall i, j | 0 <= i < j < |r| ensures r[i].id != r[j].id {
        if i == 0 {
          assert r[j] == t[j - 1];
        } else {
          assert r[i] == t[i - 1] && r[j] == t[j - 1];
        }
      }
    }
  }

  /** A permutation has the same ids. */
  lemma PermutationKeepsIds(r: seq<Submission>, subs: seq<Submission>)
    requires multiset(r) == multiset(subs)
    ensures Ids(r) == Ids(subs)
  {
    forall x | x in Ids(r) ensures x in Ids(subs) {
      var s :| s in r && s.id == x;
      assert s in multiset(subs);
    }
    forall x | x in Ids(subs) ensures x in Ids(r) {
      var s :| s in subs && s.id == x;
      assert s in multiset(r);
    }
  }

  /** Sorting keeps the set of ids, and their uniqueness. */
  lemma {:induction false} SortKeepsIds(subs: seq<Submission>)
    ensures Ids(SortByDateDesc(subs)) == Ids(subs)
    ensures UniqueIds(subs) ==> UniqueIds(SortByDateDesc(subs))
  {
    SortIsPermutation(subs);
    PermutationKeepsIds(SortByDateDesc(subs), subs);
    if subs != [] && UniqueIds(subs) {
      var tail := subs[1..];
      assert UniqueIds(tail);
      SortKeepsIds(tail);
      assert subs[0].id !in Ids(tail);
      InsertKeepsIds(subs[0], SortByDateDesc(tail));
    }
  }

  /** `prev.filter(s => s.id !== id)`: every other submission, in order. */
  function RemoveById(subs: seq<Submission>, id: Id): (r: seq<Submission>)
    ensures |r| <= |subs|
    ensures forall i :: 0 <= i < |r| ==> r[i].id != id
  {
    if subs == [] then []
    else if subs[0].id == id then RemoveById(subs[1..], id)
    else [subs[0]] + RemoveById(subs[1..], id)
  }

  /** The removal is the library `filter` with the predicate `s.id !== id`. */
  lemma {:induction false} RemoveByIdIsFilter(subs: seq<Submission>, id: Id)
    ensures RemoveById(subs, id) == Filter(subs, (s: Submission) => s.id != id)
  {
    if subs != [] {
      RemoveByIdIsFilter(subs[1..], id);
      FilterCons(subs, (s: Submission) => s.id != id);
    }
  }

  /** The removal leaves no submission with the id, keeps every other submission
      in order, takes exactly that id out of the id set, and keeps ids unique. */
  lemma RemoveByIdSpec(subs: seq<Submission>, id: Id)
    ensures id !in Ids(RemoveById(subs, id))
    ensures Ids(RemoveById(subs, id)) == Ids(subs) - {id}
    ensures IsSubsequence(RemoveById(subs, id), subs)
    ensures forall s :: s in RemoveById(subs, id) ==> s in subs && s.id != id
    ensures forall s :: s in subs && s.id != id ==> s in RemoveById(subs, id)
    ensures multiset(RemoveById(subs, id)) <= multiset(subs)
    ensures forall s :: s in subs && s.id != id ==> multiset(RemoveById(subs, id))[s] == multiset(subs)[s]
    ensures UniqueIds(subs) ==> UniqueIds(RemoveById(subs, id))
  {
    var r := RemoveById(subs, id);
    assert IsSubsequence(r, subs) && multiset(r) <= multiset(subs) by {
      RemoveByIdIsFilter(subs, id);
    }
    assert forall s :: s in r ==> s in subs && s.id != id by {
      forall s | s in r ensures s in subs && s.id != id {
        RemoveByIdIsFilter(subs, id);
        var i :| 0 <= i < |r| && r[i] == s;
      }
    }
    forall s | s in subs && s.id != id ensures s in r && multiset(r)[s] == multiset(subs)[s] {
      RemoveByIdIsFilter(subs, id);
      var i :| 0 <= i < |subs| && subs[i] == s;
    }
    SubsequenceKeepsUnique(r, subs);
  }

  /** Leaving elements out cannot create a duplicate id. */
  lemma {:induction false} SubsequenceKeepsUnique(r: seq<Submission>, subs: seq<Submission>)
    requires IsSubsequence(r, subs)
    ensures UniqueIds(subs) ==> UniqueIds(r)
    ensures forall s :: s in r ==> s in subs
    decreases |subs|
  {
    if r != [] {
      if r[0] == subs[0] && IsSubsequence(r[1..], subs[1..]) {
        SubsequenceKeepsUnique(r[1..], subs[1..]);
        assert r == [r[0]] + r[1..];
        if UniqueIds(subs) {
          forall i, j | 0 <= i < j < |r| ensures r[i].id != r[j].id {
            if i == 0 {
              var j' :| 1 <= j' < |subs| && subs[j'] == r[j] by {
                assert r[j] in r[1..];
              }
            }
          }
        }
      } else {
        SubsequenceKeepsUnique(r, subs[1..]);
      }
    }
  }

  // ---------------------------------------------------------------------------
  // The page state

  ghost function SlotIds(pending: Option<Submission>): multiset<Id> {
    if pending.Some? then multiset{pending.value.id} else multiset{}
  }

  /** A re-fetched list with the row that is still awaiting deletion left out. */
  function ResyncedRows(rows: seq<Submission>, pending: Option<Submission>): (r: seq<Submission>)
    ensures pending.Some? ==> pending.value.id !in Ids(r)
    ensures pending.None? ==> r == rows
    ensures IsSubsequence(r, rows)
    ensures forall s :: s in r ==> s in rows
    ensures forall s :: s in rows && (pending.None? || s.id != pending.value.id) ==> s in r
    ensures forall s :: s in rows && (pending.None? || s.id != pending.value.id) ==> multiset(r)[s] == multiset(rows)[s]
    ensures UniqueIds(rows) ==> UniqueIds(r)
  {
    if pending.Some? then
      RemoveByIdSpec(rows, pending.value.id);
      RemoveById(rows, pending.value.id)
    else
      SubsequenceReflexive(rows);
      rows
  }

  /** Every requested deletion was sent to the database once, was undone, or is
      the one in the slot. */
  ghost predicate AllAccountedFor(requests: seq<Id>, sent: seq<Id>, undone: seq<Id>, pending: Option<Submission>) {
    multiset(requests) == multiset(sent) + multiset(undone) + SlotIds(pending)
  }

  /** Ids in the list are unique, and the item in the slot is not in the list. */
  ghost predicate CoherentView(subs: seq<Submission>, pending: Option<Submission>) {
    UniqueIds(subs) && (pending.Some? ==> pending.value.id !in Ids(subs))
  }

  /** Restoring the held row keeps the view coherent once the slot is empty. */
  lemma UndoKeepsCoherent(x: Submission, subs: seq<Submission>)
    requires CoherentView(subs, Some(x))
    ensures CoherentView(SortByDateDesc([x] + subs), None)
  {
    var before := [x] + subs;
    forall i, j | 0 <= i < j < |before| ensures before[i].id != before[j].id {
      if i == 0 {
        assert before[j] in subs;
      } else {
        assert before[i] == subs[i - 1] && before[j] == subs[j - 1];
      }
    }
    SortKeepsIds(before);
  }

  /** Undoing moves the slot's id to the undone requests. */
  lemma UndoKeepsAccounted(requests: seq<Id>, sent: seq<Id>, undone: seq<Id>, x: Submission)
    requires AllAccountedFor(requests, sent, undone, Some(x))
    ensures AllAccountedFor(requests, sent, undone + [x.id], None)
  {
  }

  /** Finalizing the held submission moves its id from the slot to the deletes sent. */
  lemma FinalizeKeepsAccounted(requests: seq<Id>, sent: seq<Id>, undone: seq<Id>, held: Submission)
    requires AllAccountedFor(requests, sent, undone, Some(held))
    ensures AllAccountedFor(requests, sent + [held.id], undone, None)
  {
  }

  /** Holding a submission in an empty slot accounts for its new request. */
  lemma HoldKeepsAccounted(requests: seq<Id>, sent: seq<Id>, undone: seq<Id>, item: Submission)
    requires AllAccountedFor(requests, sent, undone, None)
    ensures AllAccountedFor(requests + [item.id], sent, undone, Some(item))
  {
  }

  /** The optimistic removal leaves the held submission out of a list with unique ids. */
  lemma HoldKeepsCoherent(subs: seq<Submission>, item: Submission)
    requires UniqueIds(subs)
    ensures CoherentView(RemoveById(subs, item.id), Some(item))
  {
    RemoveByIdSpec(subs, item.id);
  }

  class Inbox {
    var submissions: seq<Submission>
    var searchTerm: string
    var filter: StatusFilter
    /** The snapshot shown in the detail pane. */
    var selected: Option<Submission>
    /** The single undo slot; its grace timer is outstanding exactly while it is
        occupied. */
    var pending: Option<Submission>
    /** The "Permanently deleted" toast. */
    var recentDeleteSuccess: bool

    /** Ids sent to the database's delete, in order. */
    ghost var remoteDeletes: seq<Id>
    /** Status updates sent to the database, in order. */
    ghost var remoteUpdates: seq<StatusUpdate>
    /** Ids whose delete the admin requested, and ids whose delete was undone. */
    ghost var deleteRequests: seq<Id>
    ghost var undone: seq<Id>

    constructor ()
      ensures submissions == [] && searchTerm == [] && filter == All
      ensures selected == None && pending == None && !recentDeleteSuccess
      ensures remoteDeletes == [] && remoteUpdates == [] && deleteRequests == [] && undone == []
      ensures Accounted() && Coherent()
    {
      submissions, searchTerm, filter := [], [], All;
      selected, pending, recentDeleteSuccess := None, None, false;
      remoteDeletes, remoteUpdates, deleteRequests, undone := [], [], [], [];
    }

    /** No requested deletion is lost or doubled: each request was sent to the
        database once, undone, or is the one in the slot. */
    ghost predicate Accounted()
      reads this`deleteRequests, this`remoteDeletes, this`undone, this`pending
    {
      AllAccountedFor(deleteRequests, remoteDeletes, undone, pending)
    }

    /** Ids in the list are unique, and the item awaiting deletion is not shown. */
    ghost predicate Coherent()
      reads this`submissions, this`pending
    {
      CoherentView(submissions, pending)
    }

    /** The list as displayed. */
    function Visible(): (r: seq<Submission>)
      reads this
      ensures IsSubsequence(r, submissions)
      ensures forall i :: 0 <= i < |r| ==> MatchesSearch(r[i], searchTerm) && MatchesFilter(r[i], filter)
      ensures forall i :: 0 <= i < |submissions| && MatchesSearch(submissions[i], searchTerm) && MatchesFilter(submissions[i], filter) ==>
                multiset(r)[submissions[i]] == multiset(submissions)[submissions[i]]
      ensures multiset(r) <= multiset(submissions)
    {
      FilteredSubmissions(submissions, searchTerm, filter)
    }

    method SetSearchTerm(term: string)
      modifies this`searchTerm
      ensures searchTerm == term
      ensures old(Coherent()) ==> Coherent()
    {
      searchTerm := term;
    }

    method SetFilter(f: StatusFilter)
      modifies this`filter
      ensures filter == f
      ensures old(Coherent()) ==> Coherent()
    {
      filter := f;
    }

    /** `fetchSubmissions`: replace the list on success, keep it on error. */
    method FetchSubmissions(result: FetchResult)
      modifies this`submissions
      ensures submissions == if result.Fetched? then Rows(result) else old(submissions)
    {
      if result.Fetched? {
        submissions := Rows(result);
      }
    }

    /** `handleMarkAs` with `seen` the selection its closure captured: the update
        is always sent; the local list and selection change only when it succeeds. */
    method ApplyMarkAs(id: Id, status: Status, seen: Option<Submission>, ok: bool)
      modifies this`submissions, this`selected, this`remoteUpdates
      ensures remoteUpdates == old(remoteUpdates) + [StatusUpdate(id, status)]
      ensures submissions == if ok then SetStatus(old(submissions), id, status) else old(submissions)
      ensures selected == if ok && seen.Some? && seen.value.id == id && old(selected).Some?
                          then Some(old(selected).value.(status := status)) else old(selected)
      ensures old(Coherent()) ==> Coherent()
    {
      remoteUpdates := remoteUpdates + [StatusUpdate(id, status)];
      if ok {
        SetStatusKeepsIds(submissions, id, status);
        submissions := SetStatus(submissions, id, status);
        if seen.Some? && seen.value.id == id && selected.Some? {
          selected := Some(selected.value.(status := status));
        }
      }
    }

    /** `handleMarkAs(id, status)` from the current render. */
    method MarkAs(id: Id, status: Status, ok: bool)
      modifies this`submissions, this`selected, this`remoteUpdates
      ensures remoteUpdates == old(remoteUpdates) + [StatusUpdate(id, status)]
      ensures submissions == if ok then SetStatus(old(submissions), id, status) else old(submissions)
      ensures selected == if ok && old(selected).Some? && old(selected).value.id == id
                          then Some(old(selected).value.(status := status)) else old(selected)
      ensures old(Coherent()) ==> Coherent()
    {
      ApplyMarkAs(id, status, selected, ok);
    }

    /** Clicking a row: it becomes the selection, and a `new` row is marked `read`.
        The mark-as call sees the selection from before the click, so the selected
        snapshot follows the new status only if the row was already selected. */
    method Select(s: Submission, ok: bool)
      requires s in submissions
      modifies this`submissions, this`selected, this`remoteUpdates
      ensures s.status != New ==> submissions == old(submissions) && selected == Some(s) && remoteUpdates == old(remoteUpdates)
      ensures s.status == New ==> remoteUpdates == old(remoteUpdates) + [StatusUpdate(s.id, Read)]
      ensures s.status == New ==> submissions == if ok then SetStatus(old(submissions), s.id, Read) else old(submissions)
      ensures s.status == New ==> selected == if ok && old(selected).Some? && old(selected).value.id == s.id
                                             then Some(s.(status := Read)) else Some(s)
      ensures old(Coherent()) ==> Coherent()
    {
      var seen := selected;
      selected := Some(s);
      if s.status == New {
        ApplyMarkAs(s.id, Read, seen, ok);
      }
    }

    /** The detail pane's replied toggle: `replied` goes back to `read`, anything
        else becomes `replied`. */
    method ToggleReplied(ok: bool)
      requires selected.Some?
      modifies this`submissions, this`selected, this`remoteUpdates
      ensures var target := if old(selected).value.status == Replied then Read else Replied;
              && remoteUpdates == old(remoteUpdates) + [StatusUpdate(old(selected).value.id, target)]
              && submissions == (if ok then SetStatus(old(submissions), old(selected).value.id, target) else old(submissions))
              && selected == (if ok then Some(old(selected).value.(status := target)) else old(selected))
      ensures old(Coherent()) ==> Coherent()
    {
      var target := if selected.value.status == Replied then Read else Replied;
      MarkAs(selected.value.id, target, ok);
    }

    /** The synchronous part of `finalizeDelete(id)`: clear the slot, send one
        delete. */
    method IssueFinalize(id: Id)
      modifies this`pending, this`remoteDeletes
      ensures pending == None
      ensures remoteDeletes == old(remoteDeletes) + [id]
      ensures old(Accounted()) && old(pending).Some? && old(pending).value.id == id ==> Accounted()
      ensures old(UniqueIds(submissions)) ==> Coherent()
    {
      if Accounted() && pending.Some? && pending.value.id == id {
        FinalizeKeepsAccounted(deleteRequests, remoteDeletes, undone, pending.value);
      }
      pending := None;
      remoteDeletes := remoteDeletes + [id];
    }

    /** The response to that delete: success raises the toast, failure (an error
        or an exception) re-fetches the whole list. */
    method FinalizeResponse(ok: bool, refetch: FetchResult)
      modifies this`recentDeleteSuccess, this`submissions
      ensures ok ==> recentDeleteSuccess && submissions == old(submissions)
      ensures !ok ==> recentDeleteSuccess == old(recentDeleteSuccess)
      ensures !ok ==> submissions == if refetch.Fetched? then Rows(refetch) else old(submissions)
      ensures old(Coherent()) && (ok || !refetch.Fetched?) ==> Coherent()
    {
      if ok {
        recentDeleteSuccess := true;
      } else {
        FetchSubmissions(refetch);
      }
    }

    /** `finalizeDelete(id)` run to completion. */
    method FinalizeDelete(id: Id, ok: bool, refetch: FetchResult)
      modifies this`pending, this`remoteDeletes, this`recentDeleteSuccess, this`submissions
      ensures pending == None
      ensures remoteDeletes == old(remoteDeletes) + [id]
      ensures ok ==> recentDeleteSuccess && submissions == old(submissions)
      ensures !ok ==> recentDeleteSuccess == old(recentDeleteSuccess)
      ensures !ok ==> submissions == if refetch.Fetched? then Rows(refetch) else old(submissions)
      ensures old(Accounted()) && old(pending).Some? && old(pending).value.id == id ==> Accounted()
      ensures old(UniqueIds(submissions)) && (ok || !refetch.Fetched? || UniqueIds(Rows(refetch))) ==> Coherent()
    {
      IssueFinalize(id);
      FinalizeResponse(ok, refetch);
    }

    /** The grace timer expires: the item in the slot is deleted for good. With an
        empty slot no timer is outstanding, so nothing happens. */
    method TimerFires(ok: bool, refetch: FetchResult)
      modifies this`pending, this`remoteDeletes, this`recentDeleteSuccess, this`submissions
      ensures old(pending).None? ==> pending == None && remoteDeletes == old(remoteDeletes)
                                     && recentDeleteSuccess == old(recentDeleteSuccess) && submissions == old(submissions)
      ensures old(pending).Some? ==> pending == None && remoteDeletes == old(remoteDeletes) + [old(pending).value.id]
      ensures old(pending).Some? && ok ==> recentDeleteSuccess && submissions == old(submissions)
      ensures old(pending).Some? && !ok ==> recentDeleteSuccess == old(recentDeleteSuccess)
                                            && submissions == if refetch.Fetched? then Rows(refetch) else old(submissions)
      ensures old(Accounted()) ==> Accounted()
      ensures old(Coherent()) && (refetch.Fetched? && !ok ==> UniqueIds(Rows(refetch))) ==> Coherent()
    {
      if pending.Some? {
        FinalizeDelete(pending.value.id, ok, refetch);
      }
    }

    /** The 3-second timer that hides the "Permanently deleted" toast. */
    method SuccessToastExpires()
      modifies this`recentDeleteSuccess
      ensures !recentDeleteSuccess
      ensures old(Coherent()) ==> Coherent()
    {
      recentDeleteSuccess := false;
    }

    // `handleDelete` is built from the small steps below (`Park`, `HoldForUndo`,
    // `ForceAndHold`, `ForceThenHold`, `DeleteFound`), each with a contract that
    // gives its part of the new state. The callers compose those contracts
    // instead of reasoning about the whole handler at once.

    /** The slot takes the row, and the request to delete it is recorded. */
    method Park(item: Submission)
      modifies this`pending, this`recentDeleteSuccess, this`deleteRequests
      ensures pending == Some(item) && !recentDeleteSuccess
      ensures deleteRequests == old(deleteRequests) + [item.id]
      ensures old(Accounted()) && old(pending).None? ==> Accounted()
    {
      if Accounted() && pending.None? {
        HoldKeepsAccounted(deleteRequests, remoteDeletes, undone, item);
      }
      pending := Some(item);
      deleteRequests := deleteRequests + [item.id];
      recentDeleteSuccess := false;
    }

    /** The optimistic part of `handleDelete`: the row leaves the list and the
        selection, and waits in the slot. */
    method HoldForUndo(item: Submission)
      modifies this`submissions, this`selected, this`pending, this`recentDeleteSuccess, this`deleteRequests
      ensures submissions == RemoveById(old(submissions), item.id)
      ensures selected == if old(selected).Some? && old(selected).value.id == item.id then None else old(selected)
      ensures pending == Some(item) && !recentDeleteSuccess
      ensures deleteRequests == old(deleteRequests) + [item.id]
      ensures old(Accounted()) && old(pending).None? ==> Accounted()
      ensures old(UniqueIds(submissions)) ==> Coherent()
    {
      if UniqueIds(submissions) {
        HoldKeepsCoherent(submissions, item);
      }
      submissions := RemoveById(submissions, item.id);
      if selected.Some? && selected.value.id == item.id {
        selected := None;
      }
      Park(item);
    }

    /** `handleDelete` while an earlier row waits in the slot: its delete is sent
        now, the found row is held, and the earlier delete's response arrives
        after this handler. */
    method ForceThenHold(item: Submission, forcedOk: bool, refetch: FetchResult)
      requires pending.Some?
      modifies this`submissions, this`selected, this`pending, this`recentDeleteSuccess
      modifies this`remoteDeletes, this`deleteRequests
      ensures pending == Some(item)
      ensures remoteDeletes == old(remoteDeletes) + [old(pending).value.id]
      ensures deleteRequests == old(deleteRequests) + [item.id]
      ensures selected == if old(selected).Some? && old(selected).value.id == item.id then None else old(selected)
      ensures recentDeleteSuccess == forcedOk
      ensures submissions == if !forcedOk && refetch.Fetched? then Rows(refetch) else RemoveById(old(submissions), item.id)
      ensures old(Accounted()) ==> Accounted()
      ensures old(Coherent()) && (forcedOk || !refetch.Fetched?) ==> Coherent()
    {
      ForceAndHold(item);
      FinalizeResponse(forcedOk, refetch);
    }

    /** The synchronous part of that handler: the earlier row's delete is sent,
        then the found row is held. */
    method ForceAndHold(item: Submission)
      requires pending.Some?
      modifies this`submissions, this`selected, this`pending, this`recentDeleteSuccess
      modifies this`remoteDeletes, this`deleteRequests
      ensures pending == Some(item) && !recentDeleteSuccess
      ensures remoteDeletes == old(remoteDeletes) + [old(pending).value.id]
      ensures deleteRequests == old(deleteRequests) + [item.id]
      ensures selected == if old(selected).Some? && old(selected).value.id == item.id then None else old(selected)
      ensures submissions == RemoveById(old(submissions), item.id)
      ensures old(Accounted()) ==> Accounted()
      ensures old(Coherent()) ==> Coherent()
    {
      IssueFinalize(pending.value.id);
      HoldForUndo(item);
    }

    /** `handleDelete` once the row is found: an earlier pending delete is forced
        through first, then the row is held for undo. */
    method DeleteFound(item: Submission, forcedOk: bool, refetch: FetchResult)
      requires item in submissions
      modifies this`submissions, this`selected, this`pending, this`recentDeleteSuccess
      modifies this`remoteDeletes, this`deleteRequests
      ensures pending == Some(item)
      ensures remoteDeletes == old(remoteDeletes) + (if old(pending).Some? then [old(pending).value.id] else [])
      ensures deleteRequests == old(deleteRequests) + [item.id]
      ensures selected == if old(selected).Some? && old(selected).value.id == item.id then None else old(selected)
      ensures recentDeleteSuccess == (old(pending).Some? && forcedOk)
      ensures submissions == if old(pending).Some? && !forcedOk && refetch.Fetched? then Rows(refetch)
                             else RemoveById(old(submissions), item.id)
      ensures old(Coherent()) ==> item.id !in remoteDeletes[|old(remoteDeletes)|..]
      ensures old(Accounted()) ==> Accounted()
      ensures old(Coherent()) && !(old(pending).Some? && !forcedOk && refetch.Fetched?) ==> Coherent()
    {
      if pending.Some? {
        if Coherent() {
          assert item.id in Ids(submissions);
        }
        ForceThenHold(item, forcedOk, refetch);
      } else {
        HoldForUndo(item);
      }
    }

    /** `handleDelete(id)`: an id not in the list changes nothing; otherwise the
        first row with that id is deleted as `DeleteFound` says. */
    method HandleDelete(id: Id, forcedOk: bool, refetch: FetchResult)
      modifies this`submissions, this`selected, this`pending, this`recentDeleteSuccess
      modifies this`remoteDeletes, this`deleteRequests
      ensures id !in Ids(old(submissions)) ==>
        && submissions == old(submissions) && selected == old(selected) && pending == old(pending)
        && recentDeleteSuccess == old(recentDeleteSuccess) && remoteDeletes == old(remoteDeletes)
        && deleteRequests == old(deleteRequests)
      ensures id in Ids(old(submissions)) ==>
        && pending == FindById(old(submissions), id)
        && remoteDeletes == old(remoteDeletes) + (if old(pending).Some? then [old(pending).value.id] else [])
        && deleteRequests == old(deleteRequests) + [id]
        && selected == (if old(selected).Some? && old(selected).value.id == id then None else old(selected))
        && recentDeleteSuccess == (old(pending).Some? && forcedOk)
        && submissions == (if old(pending).Some? && !forcedOk && refetch.Fetched? then Rows(refetch)
                           else RemoveById(old(submissions), id))
      ensures old(Coherent()) ==> id !in remoteDeletes[|old(remoteDeletes)|..]
      ensures old(Accounted()) ==> Accounted()
      ensures old(Coherent()) && !(old(pending).Some? && !forcedOk && refetch.Fetched?) ==> Coherent()
    {
      var item := FindById(submissions, id);
      if item.Some? {
        DeleteFound(item.value, forcedOk, refetch);
      }
    }

    /** `handleDelete(id)` with its re-sync corrected: when the forced delete of
        the earlier row fails, the re-fetched list leaves out the row now held
        for undo, so the list and the slot never share a row. Everything else is
        as in `HandleDelete`. */
    method HandleDeleteKeepingPending(id: Id, forcedOk: bool, refetch: FetchResult)
      modifies this`submissions, this`selected, this`pending, this`recentDeleteSuccess
      modifies this`remoteDeletes, this`deleteRequests
      ensures id !in Ids(old(submissions)) ==>
        && submissions == old(submissions) && selected == old(selected) && pending == old(pending)
        && recentDeleteSuccess == old(recentDeleteSuccess) && remoteDeletes == old(remoteDeletes)
        && deleteRequests == old(deleteRequests)
      ensures id in Ids(old(submissions)) ==>
        && pending == FindById(old(submissions), id)
        && remoteDeletes == old(remoteDeletes) + (if old(pending).Some? then [old(pending).value.id] else [])
        && deleteRequests == old(deleteRequests) + [id]
        && selected == (if old(selected).Some? && old(selected).value.id == id then None else old(selected))
        && recentDeleteSuccess == (old(pending).Some? && forcedOk)
        && submissions == (if old(pending).Some? && !forcedOk && refetch.Fetched? then ResyncedRows(Rows(refetch), pending)
                           else RemoveById(old(submissions), id))
      ensures old(Coherent()) ==> id !in remoteDeletes[|old(remoteDeletes)|..]
      ensures old(Accounted()) ==> Accounted()
      ensures old(Coherent()) && (refetch.Fetched? ==> UniqueIds(Rows(refetch))) ==> Coherent()
    {
      var item := FindById(submissions, id);
      if item.Some? {
        DeleteFoundKeepingPending(item.value, forcedOk, refetch);
      }
    }

    /** `DeleteFound` with the corrected response to the forced delete. */
    method DeleteFoundKeepingPending(item: Submission, forcedOk: bool, refetch: FetchResult)
      requires item in submissions
      modifies this`submissions, this`selected, this`pending, this`recentDeleteSuccess
      modifies this`remoteDeletes, this`deleteRequests
      ensures pending == Some(item)
      ensures remoteDeletes == old(remoteDeletes) + (if old(pending).Some? then [old(pending).value.id] else [])
      ensures deleteRequests == old(deleteRequests) + [item.id]
      ensures selected == if old(selected).Some? && old(selected).value.id == item.id then None else old(selected)
      ensures recentDeleteSuccess == (old(pending).Some? && forcedOk)
      ensures submissions == if old(pending).Some? && !forcedOk && refetch.Fetched? then ResyncedRows(Rows(refetch), pending)
                             else RemoveById(old(submissions), item.id)
      ensures old(Coherent()) ==> item.id !in remoteDeletes[|old(remoteDeletes)|..]
      ensures old(Accounted()) ==> Accounted()
      ensures old(Coherent()) && (refetch.Fetched? ==> UniqueIds(Rows(refetch))) ==> Coherent()
    {
      if pending.Some? {
        if Coherent() {
          assert item.id in Ids(submissions);
        }
        ForceThenHoldKeepingPending(item, forcedOk, refetch);
      } else {
        HoldForUndo(item);
      }
    }

    /** `ForceThenHold` with the corrected response to the forced delete. */
    method ForceThenHoldKeepingPending(item: Submission, forcedOk: bool, refetch: FetchResult)
      requires pending.Some?
      modifies this`submissions, this`selected, this`pending, this`recentDeleteSuccess
      modifies this`remoteDeletes, this`deleteRequests
      ensures pending == Some(item)
      ensures remoteDeletes == old(remoteDeletes) + [old(pending).value.id]
      ensures deleteRequests == old(deleteRequests) + [item.id]
      ensures selected == if old(selected).Some? && old(selected).value.id == item.id then None else old(selected)
      ensures recentDeleteSuccess == forcedOk
      ensures submissions == if !forcedOk && refetch.Fetched? then ResyncedRows(Rows(refetch), pending)
                             else RemoveById(old(submissions), item.id)
      ensures old(Accounted()) ==> Accounted()
      ensures old(Coherent()) && (refetch.Fetched? ==> UniqueIds(Rows(refetch))) ==> Coherent()
    {
      ForceAndHold(item);
      FinalizeResponseKeepingPending(forcedOk, refetch);
    }

    /** The corrected response to a delete: success raises the toast; failure
        re-fetches the list but leaves out the row waiting in the slot. */
    method FinalizeResponseKeepingPending(ok: bool, refetch: FetchResult)
      modifies this`recentDeleteSuccess, this`submissions
      ensures ok ==> recentDeleteSuccess && submissions == old(submissions)
      ensures !ok ==> recentDeleteSuccess == old(recentDeleteSuccess)
      ensures !ok ==> submissions == if refetch.Fetched? then ResyncedRows(Rows(refetch), pending) else old(submissions)
      ensures old(Coherent()) && (ok || !refetch.Fetched? || UniqueIds(Rows(refetch))) ==> Coherent()
    {
      if ok {
        recentDeleteSuccess := true;
      } else if refetch.Fetched? {
        submissions := ResyncedRows(Rows(refetch), pending);
      }
    }

    /** `handleUndo`: with an empty slot nothing happens; otherwise the held row goes
        back into the list, which is re-sorted newest first, and the slot is
        cleared without any call to the database. */
    method Undo()
      modifies this`submissions, this`pending, this`undone
      ensures old(pending).None? ==> submissions == old(submissions) && pending == None && undone == old(undone)
      ensures old(pending).Some? ==>
        && submissions == SortByDateDesc([old(pending).value] + old(submissions))
        && pending == None
        && undone == old(undone) + [old(pending).value.id]
      ensures old(Accounted()) ==> Accounted()
      ensures old(Coherent()) ==> Coherent()
    {
      if pending.None? {
        return;
      }
      var restored := pending.value;
      submissions := SortByDateDesc([restored] + submissions);
      pending := None;
      undone := undone + [restored.id];
      if old(Coherent()) {
        UndoKeepsCoherent(restored, old(submissions));
      }
      if old(Accounted()) {
        UndoKeepsAccounted(deleteRequests, remoteDeletes, old(undone), restored);
      }
    }
  }

  /** Two rows of the scenario below: `b` is newer than `a`. */
  function RowA(): Submission {
    Submission("a", 1, Some("Ann"), Some("ann@example.com"), None, None, Some("Hi"), "hello", New)
  }

  function RowB(): Submission {
    Submission("b", 2, Some("Bob"), Some("bob@example.com"), None, None, Some("Yo"), "hey", Read)
  }

  lemma ScenarioFind()
    ensures "a" in Ids([RowB(), RowA()]) && FindById([RowB(), RowA()], "a") == Some(RowA())
    ensures "b" in Ids([RowB()]) && FindById([RowB()], "b") == Some(RowB())
  {
    assert RowA() in [RowB(), RowA()] && RowB() in [RowB()];
  }

  lemma ScenarioRemoveA()
    ensures RemoveById([RowB(), RowA()], "a") == [RowB()]
  {
    assert [RowB(), RowA()][1..] == [RowA()] && [RowA()][1..] == [];
  }

  lemma ScenarioRemoveB()
    ensures RemoveById([RowB(), RowA()], "b") == [RowA()]
  {
    assert [RowB(), RowA()][1..] == [RowA()] && [RowA()][1..] == [];
  }

  lemma ScenarioSortTwo()
    ensures SortByDateDesc([RowB(), RowA()]) == [RowB(), RowA()]
  {
    assert SortedByDateDesc([RowB(), RowA()]);
    SortedIsFixed([RowB(), RowA()]);
  }

  lemma ScenarioSortThree()
    ensures SortByDateDesc([RowB(), RowB(), RowA()]) == [RowB(), RowB(), RowA()]
  {
    assert SortedByDateDesc([RowB(), RowB(), RowA()]);
    SortedIsFixed([RowB(), RowB(), RowA()]);
  }

  /** The re-sync as written brings back the row still held for undo: delete `a`,
      then `b` while `a` waits, the forced delete of `a` fails and the re-fetch
      returns both rows; undo then shows `b` twice. */
  method ResyncResurrectsPending() returns (shown: seq<Submission>)
    ensures |shown| == 3 && shown[0].id == shown[1].id == "b"
  {
    var a, b := RowA(), RowB();
    var inbox := new Inbox();
    inbox.FetchSubmissions(Fetched(Some([b, a])));
    ScenarioFind();
    ScenarioRemoveA();
    inbox.HandleDelete("a", true, FetchFailed);
    assert inbox.submissions == [b] && inbox.pending == Some(a);
    inbox.HandleDelete("b", false, Fetched(Some([b, a])));
    assert inbox.submissions == [b, a] && inbox.pending == Some(b);
    ScenarioSortThree();
    inbox.Undo();
    shown := inbox.submissions;
  }

  /** With the corrected re-sync the same steps end with each row shown once. */
  method ResyncKeepsPendingOut() returns (shown: seq<Submission>)
    ensures |shown| == 2 && shown[0].id == "b" && shown[1].id == "a"
  {
    var a, b := RowA(), RowB();
    var inbox := new Inbox();
    inbox.FetchSubmissions(Fetched(Some([b, a])));
    ScenarioFind();
    ScenarioRemoveA();
    inbox.HandleDeleteKeepingPending("a", true, FetchFailed);
    assert inbox.submissions == [b] && inbox.pending == Some(a);
    ScenarioRemoveB();
    inbox.HandleDeleteKeepingPending("b", false, Fetched(Some([b, a])));
    assert inbox.submissions == [a] && inbox.pending == Some(b);
    ScenarioSortTwo();
    inbox.Undo();
    shown := inbox.submissions;
  }
}
