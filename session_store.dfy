/** The in-memory history store of server/storage.ts (`MemoryStorage`): a list of browsing
    sessions kept newest-first by creation, an id counter, per-user listing ordered by last
    access, and owner-checked deletion. */
module SessionStore {
  import opened Wrappers
  import opened Seqs

  /** A `proxy_sessions` row. `lastAccessed` is a time in milliseconds since the epoch. */
  datatype Session = Session(
    id: nat,
    userId: string,
    url: string,
    title: Option<string>,
    lastAccessed: Option<int>,
    isActive: Option<bool>)

  /** What `createSession` is given (`null` and a missing field are both None). */
  datatype NewSession = NewSession(userId: string, url: string, title: Option<string>, isActive: Option<bool>)

  /** The sort key of `getSessions`: `lastAccessed?.getTime() || 0`. */
  function Recency(s: Session): int {
    s.lastAccessed.GetOr(0)
  }

  function OwnedBy(userId: string): Session -> bool {
    (s: Session) => s.userId == userId
  }

  function NotOwnedBy(userId: string): Session -> bool {
    (s: Session) => s.userId != userId
  }

  /** The filter of `deleteSession`: keep every record but the one with this id AND owner. */
  function NotThisOnesOf(id: int, userId: string): Session -> bool {
    (s: Session) => !(s.id == id && s.userId == userId)
  }

  function RecencyIs(k: int): Session -> bool {
    (s: Session) => Recency(s) == k
  }

  // ---------------------------------------------------------------------------------------------
  // The order of getSessions: a stable sort, most recent first

  /** No record is more recent than one listed before it. */
  ghost predicate MostRecentFirst(xs: seq<Session>)
    decreases |xs|
  {
    xs != [] ==> (forall z :: z in xs[1..] ==> Recency(z) <= Recency(xs[0])) && MostRecentFirst(xs[1..])
  }

  /** Puts `x` in front of the first element that is not more recent than it. */
  function Insert(x: Session, ys: seq<Session>): (r: seq<Session>)
    ensures multiset(r) == multiset(ys) + multiset{x}
  {
    if ys == [] || Recency(ys[0]) <= Recency(x) then [x] + ys
    else
      assert ys == [ys[0]] + ys[1..];
      [ys[0]] + Insert(x, ys[1..])
  }

  /** What `Array.prototype.sort` (stable since ES2019) makes of `xs` with the comparator
      `(a, b) => key(b) - key(a)`: insertion sort from the back, each element placed before
      every later element of equal recency. */
  function SortByRecency(xs: seq<Session>): (r: seq<Session>)
    ensures multiset(r) == multiset(xs)
  {
    if xs == [] then []
    else
      assert xs == [xs[0]] + xs[1..];
      Insert(xs[0], SortByRecency(xs[1..]))
  }

  lemma {:induction false} InsertMostRecentFirst(x: Session, ys: seq<Session>)
    requires MostRecentFirst(ys)
    ensures MostRecentFirst(Insert(x, ys))
  {
    if ys == [] || Recency(ys[0]) <= Recency(x) {
      assert ([x] + ys)[1..] == ys;
      forall z | z in ys ensures Recency(z) <= Recency(x) {
        if z != ys[0] {
          assert z in ys[1..];
        }
      }
    } else {
      var t := Insert(x, ys[1..]);
      InsertMostRecentFirst(x, ys[1..]);
      forall z | z in t ensures Recency(z) <= Recency(ys[0]) {
        assert z in multiset(t);
      }
      assert ([ys[0]] + t)[1..] == t;
    }
  }

  /** The order stated by position: an earlier record is at least as recent as a later one. */
  lemma {:induction false} MostRecentFirstByPosition(xs: seq<Session>)
    requires MostRecentFirst(xs)
    ensures forall i, j :: 0 <= i < j < |xs| ==> Recency(xs[i]) >= Recency(xs[j])
  {
    if xs != [] {
      MostRecentFirstByPosition(xs[1..]);
      forall i, j | 0 <= i < j < |xs| ensures Recency(xs[i]) >= Recency(xs[j]) {
        assert xs[j] == xs[1..][j - 1];
        if i == 0 {
          assert xs[j] in xs[1..];
        } else {
          assert xs[i] == xs[1..][i - 1];
        }
      }
    }
  }

  /** Among records of one recency, inserting `x` puts it first. */
  lemma {:induction false} InsertKeepsTies(x: Session, ys: seq<Session>, k: int)
    ensures Filter(Insert(x, ys), RecencyIs(k))
      == if Recency(x) == k then [x] + Filter(ys, RecencyIs(k)) else Filter(ys, RecencyIs(k))
  {
    if ys == [] || Recency(ys[0]) <= Recency(x) {
      assert ([x] + ys)[1..] == ys;
    } else {
      InsertKeepsTies(x, ys[1..], k);
      assert ([ys[0]] + Insert(x, ys[1..]))[1..] == Insert(x, ys[1..]);
    }
  }

  /** The sort puts the most recent records first. */
  lemma {:induction false} SortOrders(xs: seq<Session>)
    ensures MostRecentFirst(SortByRecency(xs))
  {
    if xs != [] {
      SortOrders(xs[1..]);
      InsertMostRecentFirst(xs[0], SortByRecency(xs[1..]));
    }
  }

  /** Records of equal recency keep their relative order. */
  lemma {:induction false} SortStable(xs: seq<Session>, k: int)
    ensures Filter(SortByRecency(xs), RecencyIs(k)) == Filter(xs, RecencyIs(k))
  {
    if xs != [] {
      SortStable(xs[1..], k);
      InsertKeepsTies(xs[0], SortByRecency(xs[1..]), k);
    }
  }

  /** The sort yields the same records, most recent first, and records of equal recency keep
      their relative order. */
  lemma SortByRecencySpec(xs: seq<Session>)
    ensures multiset(SortByRecency(xs)) == multiset(xs)
    ensures forall i, j :: 0 <= i < j < |SortByRecency(xs)| ==>
      Recency(SortByRecency(xs)[i]) >= Recency(SortByRecency(xs)[j])
    ensures forall k :: Filter(SortByRecency(xs), RecencyIs(k)) == Filter(xs, RecencyIs(k))
  {
    SortOrders(xs);
    MostRecentFirstByPosition(SortByRecency(xs));
    forall k ensures Filter(SortByRecency(xs), RecencyIs(k)) == Filter(xs, RecencyIs(k)) {
      SortStable(xs, k);
    }
  }

  // ---------------------------------------------------------------------------------------------
  // Identifiers

  /** Each record's id is above the id of every record listed after it. */
  ghost predicate IdsFalling(xs: seq<Session>)
    decreases |xs|
  {
    xs != [] ==> (forall z :: z in xs[1..] ==> z.id < xs[0].id) && IdsFalling(xs[1..])
  }

  /** Records are listed newest first, so their ids fall from the front, and every id is below
      the next one to be issued. */
  ghost predicate IdsIssued(xs: seq<Session>, nextId: nat) {
    IdsFalling(xs) && forall x :: x in xs ==> x.id < nextId
  }

  /** Dropping records keeps the ids falling. */
  lemma {:induction false} FilterKeepsIdsFalling(xs: seq<Session>, keep: Session -> bool)
    requires IdsFalling(xs)
    ensures IdsFalling(Filter(xs, keep))
  {
    if xs != [] {
      var rest := Filter(xs[1..], keep);
      FilterKeepsIdsFalling(xs[1..], keep);
      if keep(xs[0]) {
        assert ([xs[0]] + rest)[1..] == rest;
      }
    }
  }

  /** Falling ids, stated by position: an earlier record has the larger id. */
  lemma {:induction false} IdsFallingByPosition(xs: seq<Session>)
    requires IdsFalling(xs)
    ensures forall i, j :: 0 <= i < j < |xs| ==> xs[i].id > xs[j].id
  {
    if xs != [] {
      IdsFallingByPosition(xs[1..]);
      forall i, j | 0 <= i < j < |xs| ensures xs[i].id > xs[j].id {
        assert xs[j] == xs[1..][j - 1];
        if i == 0 {
          assert xs[j] in xs[1..];
        } else {
          assert xs[i] == xs[1..][i - 1];
        }
      }
    }
  }

  /** Issued ids are never shared by two records. */
  lemma IdsUnique(xs: seq<Session>, nextId: nat)
    requires IdsIssued(xs, nextId)
    ensures forall i, j :: 0 <= i < |xs| && 0 <= j < |xs| && i != j ==> xs[i].id != xs[j].id
  {
    IdsFallingByPosition(xs);
    forall i, j | 0 <= i < |xs| && 0 <= j < |xs| && i != j ensures xs[i].id != xs[j].id {
      if i < j {
        assert xs[i].id > xs[j].id;
      } else {
        assert xs[j].id > xs[i].id;
      }
    }
  }

  /** The user's records, sorted: exactly those records, in order of recency, ties kept in list
      order. */
  lemma OwnedSorted(sessions: seq<Session>, userId: string)
    ensures var r := SortByRecency(Filter(sessions, OwnedBy(userId)));
      && multiset(r) == multiset(Filter(sessions, OwnedBy(userId)))
      && (forall x :: x in r <==> x in sessions && x.userId == userId)
      && (forall i, j :: 0 <= i < j < |r| ==> Recency(r[i]) >= Recency(r[j]))
      && (forall k :: Filter(r, RecencyIs(k)) == Filter(Filter(sessions, OwnedBy(userId)), RecencyIs(k)))
  {
    var owned := Filter(sessions, OwnedBy(userId));
    SortByRecencySpec(owned);
    var r := SortByRecency(owned);
    forall x ensures x in r <==> x in owned {
      assert x in r <==> x in multiset(r);
      assert x in owned <==> x in multiset(owned);
    }
  }

  // ---------------------------------------------------------------------------------------------
  // The store

  class MemoryStorage {
    var sessions: seq<Session>
    var nextId: nat

    ghost predicate Valid()
      reads this
    {
      nextId >= 1 && IdsIssued(sessions, nextId)
    }

    constructor ()
      ensures Valid() && sessions == [] && nextId == 1
    {
      sessions := [];
      nextId := 1;
    }

    /** `getSessions(userId)`: exactly the user's records, most recent first, ties in list order. */
    function GetSessions(userId: string): (r: seq<Session>)
      reads this
      ensures multiset(r) == multiset(Filter(sessions, OwnedBy(userId)))
      ensures forall x :: x in r <==> x in sessions && x.userId == userId
      ensures forall i, j :: 0 <= i < j < |r| ==> Recency(r[i]) >= Recency(r[j])
      ensures forall k :: Filter(r, RecencyIs(k)) == Filter(Filter(sessions, OwnedBy(userId)), RecencyIs(k))
    {
      OwnedSorted(sessions, userId);
      SortByRecency(Filter(sessions, OwnedBy(userId)))
    }

    /** `createSession(input)` at time `now`: the next id, the current time, `isActive` true and
        `title` null unless given; the record goes in front of the list. */
    method CreateSession(input: NewSession, now: int) returns (created: Session)
      requires Valid()
      modifies this
      ensures Valid()
      ensures created == Session(old(nextId), input.userId, input.url, input.title, Some(now),
                                 Some(input.isActive.GetOr(true)))
      ensures nextId == old(nextId) + 1
      ensures sessions == [created] + old(sessions)
    {
      created := Session(nextId, input.userId, input.url, input.title, Some(now), Some(input.isActive.GetOr(true)));
      nextId := nextId + 1;
      sessions := [created] + sessions;
      assert sessions[1..] == old(sessions);
    }

    /** `deleteSession(id, userId)`: drops the records with that id and that owner; the others
        stay in order, and when none matches nothing changes. */
    method DeleteSession(id: int, userId: string)
      requires Valid()
      modifies this
      ensures Valid() && nextId == old(nextId)
      ensures sessions == Filter(old(sessions), NotThisOnesOf(id, userId))
      ensures forall x :: x in sessions <==> x in old(sessions) && !(x.id == id && x.userId == userId)
      ensures (forall x :: x in old(sessions) ==> !(x.id == id && x.userId == userId)) ==> sessions == old(sessions)
    {
      FilterKeepsIdsFalling(sessions, NotThisOnesOf(id, userId));
      sessions := Filter(sessions, NotThisOnesOf(id, userId));
    }

    /** `deleteSessionsByUser(userId)`: no record of that user is left; the others stay in order. */
    method DeleteSessionsByUser(userId: string)
      requires Valid()
      modifies this
      ensures Valid() && nextId == old(nextId)
      ensures sessions == Filter(old(sessions), NotOwnedBy(userId))
      ensures forall x :: x in sessions <==> x in old(sessions) && x.userId != userId
    {
      FilterKeepsIdsFalling(sessions, NotOwnedBy(userId));
      sessions := Filter(sessions, NotOwnedBy(userId));
    }
  }
}
