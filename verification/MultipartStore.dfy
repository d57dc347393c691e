/**
 Gamestates in a store of bounded items.

 A text longer than one item is cut into parts.  Part 1, the head, names how many parts there are
 and where the tail begins.  A write puts the new tail, then the head, then deletes the old tail,
 trusting a cached copy of the old head.  Each request can fail, and the process can stop between
 any two of them.
 */
module MultipartStore {

  const PART_SIZE := 60000

  datatype Item = Item(second: nat, total: nat, data: string)

  type Items = map<nat, Item>

  /** What the server remembers about a location's head; all zero if it never loaded or wrote it. */
  datatype Cache = Cache(total: nat, second: nat)

  datatype Request = Put(id: nat, item: Item) | Delete(id: nat)

  // ----- cutting a text into parts -----

  function PartCount(size: nat): (n: nat)
    ensures size <= n * PART_SIZE < size + PART_SIZE
  {
    (size + PART_SIZE - 1) / PART_SIZE
  }

  function Part(text: string, a: nat): (part: string)
    requires a < PartCount(|text|)
    ensures 0 < |part| <= PART_SIZE
  {
    var from := a * PART_SIZE;
    text[from..if |text| - from < PART_SIZE then |text| else from + PART_SIZE]
  }

  // ----- the requests of a write -----

  function NewSecond(cache: Cache, total: nat): nat {
    if total <= 1 then 0
    else if cache.second == 0 || cache.second > total then 2
    else cache.second + cache.total - 1
  }

  function PartId(second: nat, a: nat): nat {
    if a == 0 then 1 else second + a - 1
  }

  /** The puts of parts `a - 1` down to 0. */
  function Puts(text: string, second: nat, a: nat): (r: seq<Request>)
    requires a <= PartCount(|text|)
    ensures |r| == a
  {
    if a == 0 then []
    else [Put(PartId(second, a - 1), Item(second, PartCount(|text|), Part(text, a - 1)))] + Puts(text, second, a - 1)
  }

  function Deletes(from: nat, end: int): (r: seq<Request>)
    ensures |r| == if from < end then end - from else 0
    decreases end - from
  {
    if from < end then [Delete(from)] + Deletes(from + 1, end) else []
  }

  function Requests(text: string, cache: Cache): seq<Request> {
    Puts(text, NewSecond(cache, PartCount(|text|)), PartCount(|text|)) +
    Deletes(cache.second, cache.second + cache.total - 1)
  }

  function Apply(items: Items, r: Request): Items {
    match r
    case Put(id, item) => items[id := item]
    case Delete(id) => items - {id}
  }

  function ApplyAll(items: Items, rs: seq<Request>): Items
    decreases |rs|
  {
    if rs == [] then items else ApplyAll(Apply(items, rs[0]), rs[1..])
  }

  lemma {:induction false} ApplyAllConcat(items: Items, a: seq<Request>, b: seq<Request>)
    ensures ApplyAll(items, a + b) == ApplyAll(ApplyAll(items, a), b)
    decreases |a|
  {
    if a == [] {
      assert a + b == b;
    } else {
      assert (a + b)[0] == a[0] && (a + b)[1..] == a[1..] + b;
      ApplyAllConcat(Apply(items, a[0]), a[1..], b);
    }
  }

  lemma ApplyNext(items: Items, rs: seq<Request>, k: nat)
    requires k < |rs|
    ensures ApplyAll(items, rs[..k + 1]) == Apply(ApplyAll(items, rs[..k]), rs[k])
  {
    assert rs[..k + 1] == rs[..k] + [rs[k]];
    ApplyAllConcat(items, rs[..k], [rs[k]]);
    assert ApplyAll(ApplyAll(items, rs[..k]), [rs[k]]) == ApplyAll(Apply(ApplyAll(items, rs[..k]), rs[k]), []);
  }

  lemma {:induction false} PutsAt(text: string, second: nat, a: nat, k: nat)
    requires k < a <= PartCount(|text|)
    ensures Puts(text, second, a)[k] ==
      Put(PartId(second, a - 1 - k), Item(second, PartCount(|text|), Part(text, a - 1 - k)))
  {
    if k > 0 {
      PutsAt(text, second, a - 1, k - 1);
    }
  }

  lemma {:induction false} DeletesAt(from: nat, end: int, k: nat)
    requires k < |Deletes(from, end)|
    ensures Deletes(from, end)[k] == Delete(from + k)
    decreases k
  {
    if k > 0 {
      DeletesAt(from + 1, end, k - 1);
    }
  }

  /** Parts have 60000 letters, but for the last one, which has what is left. */
  lemma PartsOfText(text: string, a: nat)
    ensures PartCount(|text|) == 0 <==> text == ""
    ensures a < PartCount(|text|) <==> 60000 * a < |text|
    ensures 60000 * a < |text| ==>
      Part(text, a) == if 60000 * a + 60000 <= |text| then text[60000 * a..60000 * a + 60000] else text[60000 * a..]
  {
  }

  /** Where a new tail begins: right behind the cached one, or at 2 if there is none or it leaves room enough. */
  lemma NewTailPlace(cache: Cache, total: nat)
    ensures total <= 1 ==> NewSecond(cache, total) == 0
    ensures total > 1 && (cache.second == 0 || cache.second > total) ==> NewSecond(cache, total) == 2
    ensures total > 1 && 0 < cache.second <= total ==> NewSecond(cache, total) == cache.second + cache.total - 1
  {
  }

  /** A write puts the last part first and the head last; then it deletes the cached tail from its beginning. */
  lemma OrderOfRequests(text: string, cache: Cache, k: nat)
    requires k < |Requests(text, cache)|
    ensures var n := PartCount(|text|);
      var second := NewSecond(cache, n);
      && |Requests(text, cache)| == n + (if cache.total > 1 then cache.total - 1 else 0)
      && (k < n - 1 ==>
        Requests(text, cache)[k] == Put(second + (n - 1 - k) - 1, Item(second, n, Part(text, n - 1 - k))))
      && (k == n - 1 ==> Requests(text, cache)[k] == Put(1, Item(second, n, Part(text, 0))))
      && (k >= n ==> Requests(text, cache)[k] == Delete(cache.second + (k - n)))
  {
    var n := PartCount(|text|);
    var second := NewSecond(cache, n);
    if k < n {
      PutsAt(text, second, n, k);
    } else {
      DeletesAt(cache.second, cache.second + cache.total - 1, k - n);
    }
  }

  // ----- loading -----

  predicate IsFirstFrom(items: Items, start: nat, id: nat) {
    id in items && start <= id && forall other | other in items && start <= other :: id <= other
  }

  predicate HasFrom(items: Items, start: nat) {
    exists id | id in items :: start <= id
  }

  lemma {:induction false} FirstFromExists(items: Items, start: nat)
    requires HasFrom(items, start)
    ensures exists id :: IsFirstFrom(items, start, id)
    decreases |items|
  {
    var id :| id in items && start <= id;
    if other :| other in items && start <= other < id {
      var rest := items - {id};
      assert other in rest;
      assert rest.Keys == items.Keys - {id};
      FirstFromExists(rest, start);
      var first :| IsFirstFrom(rest, start, first);
      assert first <= other;
      assert forall o | o in items && o != id :: o in rest;
      assert IsFirstFrom(items, start, first);
    } else {
      assert IsFirstFrom(items, start, id);
    }
  }

  ghost function FirstFrom(items: Items, start: nat): (id: nat)
    requires HasFrom(items, start)
    ensures IsFirstFrom(items, start, id)
  {
    FirstFromExists(items, start);
    var id :| IsFirstFrom(items, start, id);
    id
  }

  /** The data of at most `limit` items with ids from `start` on, in the order of ids. */
  ghost function Query(items: Items, start: nat, limit: nat): string
    decreases limit
  {
    if limit == 0 || !HasFrom(items, start) then ""
    else
      var id := FirstFrom(items, start);
      items[id].data + Query(items, id + 1, limit - 1)
  }

  lemma QueryNext(items: Items, start: nat, limit: nat, id: nat)
    requires limit > 0 && IsFirstFrom(items, start, id)
    ensures Query(items, start, limit) == items[id].data + Query(items, id + 1, limit - 1)
  {
    assert FirstFrom(items, start) == id;
  }

  /** The head as read: stores written before tails could move left out where the tail begins. */
  function HeadOf(items: Items): Cache {
    if 1 !in items then Cache(0, 0)
    else if items[1].total > 1 && items[1].second == 0 then Cache(items[1].total, 2)
    else Cache(items[1].total, items[1].second)
  }

  ghost function Load(items: Items): string {
    var head := HeadOf(items);
    (if 1 in items then items[1].data else "") +
    (if head.total > 1 then Query(items, head.second, head.total - 1) else "")
  }

  /** A head without the place of its tail is from an older server, whose tails began at 2. */
  lemma TailsOfOldStores(items: Items)
    requires 1 in items && items[1].total > 1
    ensures Load(items) ==
      items[1].data + Query(items, if items[1].second == 0 then 2 else items[1].second, items[1].total - 1)
  {
  }

  // ----- well-formed stores -----

  /** A cache that a load or a successful write of some head may have left. */
  predicate Sane(cache: Cache) {
    if cache.total <= 1 then cache.second == 0 else cache.second >= 2
  }

  /** The tail a head describes is all there, away from the head, and no part is empty. */
  ghost predicate Complete(items: Items) {
    var head := HeadOf(items);
    && (1 in items ==> items[1].data != "")
    && Sane(head)
    && (forall id | head.total > 1 && head.second <= id < head.second + head.total - 1 ::
          id in items && items[id].data != "")
  }

  predicate InTail(c: Cache, id: nat) {
    c.total > 1 && c.second <= id < c.second + c.total - 1
  }

  ghost predicate Apart(a: Cache, b: Cache) {
    forall id | InTail(a, id) :: !InTail(b, id)
  }

  // ----- what a load sees -----

  ghost function Joined(items: Items, from: nat, end: nat): string
    requires forall id | from <= id < end :: id in items
    decreases end - from
  {
    if from >= end then "" else items[from].data + Joined(items, from + 1, end)
  }

  /** A query over consecutive ids is not disturbed by anything beyond them. */
  lemma {:induction false} QueryConsecutive(items: Items, from: nat, limit: nat)
    requires forall id | from <= id < from + limit :: id in items
    ensures Query(items, from, limit) == Joined(items, from, from + limit)
    decreases limit
  {
    if limit > 0 {
      assert from in items && HasFrom(items, from);
      assert FirstFrom(items, from) == from;
      QueryConsecutive(items, from + 1, limit - 1);
    }
  }

  lemma {:induction false} JoinedSame(a: Items, b: Items, from: nat, end: nat)
    requires forall id | from <= id < end :: id in a && id in b && a[id].data == b[id].data
    ensures Joined(a, from, end) == Joined(b, from, end)
    decreases end - from
  {
    if from < end {
      JoinedSame(a, b, from + 1, end);
    }
  }

  /** A load joins the head and the tail it describes. */
  lemma LoadOfTail(items: Items)
    requires 1 in items && HeadOf(items).total > 1
    requires forall id | InTail(HeadOf(items), id) :: id in items
    ensures var head := HeadOf(items);
      && (forall id | head.second <= id < head.second + head.total - 1 :: id in items)
      && Load(items) == items[1].data + Joined(items, head.second, head.second + head.total - 1)
  {
    var head := HeadOf(items);
    assert forall id: nat | head.second <= id < head.second + head.total - 1 :: InTail(head, id);
    QueryConsecutive(items, head.second, head.total - 1);
  }

  lemma LoadOfHead(items: Items)
    requires 1 in items && HeadOf(items).total <= 1
    ensures Load(items) == items[1].data
  {
    assert items[1].data + "" == items[1].data;
  }

  /** A load depends on the head and its tail only. */
  lemma LoadSame(a: Items, b: Items)
    requires Complete(a) && HeadOf(a) == HeadOf(b) && (1 in a <==> 1 in b)
    requires 1 in a ==> a[1].data == b[1].data
    requires forall id | InTail(HeadOf(a), id) :: id in b && b[id].data == a[id].data
    ensures Load(a) == Load(b)
  {
    var head := HeadOf(a);
    if head.total > 1 {
      QueryConsecutive(a, head.second, head.total - 1);
      QueryConsecutive(b, head.second, head.total - 1);
      assert forall id | head.second <= id < head.second + head.total - 1 :: InTail(head, id);
      JoinedSame(a, b, head.second, head.second + head.total - 1);
    }
  }

  // ----- what a prefix of the requests does -----

  /** Whether `id` is where one of the parts `low` to `high - 1` is put. */
  predicate Hit(second: nat, low: nat, high: nat, id: nat) {
    if id == 1 then low == 0 < high else second <= id && low <= id - second + 1 < high
  }

  function PartOf(second: nat, id: nat): int {
    if id == 1 then 0 else id - second + 1
  }

  /** Exactly the parts from `low` up have been put, and nothing else has changed. */
  ghost predicate HasPut(before: Items, items: Items, text: string, second: nat, low: nat, high: nat)
    requires high <= PartCount(|text|)
  {
    && (forall id :: id in items <==> id in before || Hit(second, low, high, id))
    && (forall id | Hit(second, low, high, id) ::
          items[id] == Item(second, PartCount(|text|), Part(text, PartOf(second, id))))
    && (forall id | id in before && !Hit(second, low, high, id) :: items[id] == before[id])
  }

  predicate SecondFits(second: nat, total: nat) {
    if total <= 1 then second == 0 else second >= 2
  }

  lemma HitNext(second: nat, total: nat, low: nat, high: nat, id: nat)
    requires 0 < low <= high <= total && SecondFits(second, total)
    ensures Hit(second, low - 1, high, id) <==> Hit(second, low, high, id) || id == PartId(second, low - 1)
    ensures Hit(second, low - 1, high, id) && id == PartId(second, low - 1) ==> PartOf(second, id) == low - 1
  {
  }

  lemma PutEffect(before: Items, items: Items, text: string, second: nat, low: nat, high: nat) returns (next: Items)
    requires 0 < low <= high <= PartCount(|text|) && SecondFits(second, PartCount(|text|))
    requires HasPut(before, items, text, second, low, high)
    ensures next == Apply(items, Puts(text, second, low)[0]) && HasPut(before, next, text, second, low - 1, high)
  {
    var put := Puts(text, second, low)[0];
    next := Apply(items, put);
    forall id: nat
      ensures Hit(second, low - 1, high, id) <==> Hit(second, low, high, id) || id == put.id
      ensures Hit(second, low - 1, high, id) && id == put.id ==> PartOf(second, id) == low - 1
    {
      HitNext(second, PartCount(|text|), low, high, id);
    }
  }

  lemma PutsNext(items: Items, next: Items, text: string, second: nat, stop: nat, low: nat)
    requires stop < low <= PartCount(|text|) && next == Apply(items, Puts(text, second, low)[0])
    ensures ApplyAll(items, Puts(text, second, low)[..low - stop]) ==
      ApplyAll(next, Puts(text, second, low - 1)[..low - 1 - stop])
  {
    var puts := Puts(text, second, low)[..low - stop];
    assert puts[0] == Puts(text, second, low)[0] && puts[1..] == Puts(text, second, low - 1)[..low - 1 - stop];
  }

  lemma {:induction false} PutsEffect(before: Items, items: Items, text: string, second: nat, stop: nat, low: nat,
                                      high: nat)
    requires stop <= low <= high <= PartCount(|text|) && SecondFits(second, PartCount(|text|))
    requires HasPut(before, items, text, second, low, high)
    ensures HasPut(before, ApplyAll(items, Puts(text, second, low)[..low - stop]), text, second, stop, high)
    decreases low - stop
  {
    if stop < low {
      var next := PutEffect(before, items, text, second, low, high);
      PutsEffect(before, next, text, second, stop, low - 1, high);
      PutsNext(items, next, text, second, stop, low);
    }
  }

  lemma {:induction false} DeletesEffect(items: Items, from: nat, end: int, k: nat)
    requires k <= |Deletes(from, end)|
    ensures var r := ApplyAll(items, Deletes(from, end)[..k]);
      && (forall id :: id in r <==> id in items && !(from <= id < from + k))
      && (forall id | id in r :: r[id] == items[id])
    decreases k
  {
    if k > 0 {
      var ds := Deletes(from, end);
      DeletesEffect(items - {from}, from + 1, end, k - 1);
      assert ds[..k][0] == ds[0] && ds[..k][1..] == Deletes(from + 1, end)[..k - 1];
    }
  }

  /** The store after the first `k` requests of a write of `text`. */
  function Crashed(items: Items, cache: Cache, text: string, k: nat): Items
    requires k <= |Requests(text, cache)|
  {
    ApplyAll(items, Requests(text, cache)[..k])
  }

  function NewHead(cache: Cache, text: string): Cache {
    Cache(PartCount(|text|), NewSecond(cache, PartCount(|text|)))
  }

  lemma DuringPuts(items: Items, cache: Cache, text: string, k: nat)
    requires Sane(cache) && k <= PartCount(|text|)
    ensures var n := PartCount(|text|);
      HasPut(items, Crashed(items, cache, text, k), text, NewSecond(cache, n), n - k, n)
  {
    var n := PartCount(|text|);
    var second := NewSecond(cache, n);
    PutsEffect(items, items, text, second, n - k, n, n);
    assert Requests(text, cache)[..k] == Puts(text, second, n)[..k];
  }

  lemma DuringDeletes(items: Items, cache: Cache, text: string, k: nat)
    requires Sane(cache) && PartCount(|text|) <= k <= |Requests(text, cache)|
    ensures var n := PartCount(|text|);
      var put, r := Crashed(items, cache, text, n), Crashed(items, cache, text, k);
      && (forall id :: id in r <==> id in put && !(cache.second <= id < cache.second + k - n))
      && (forall id | id in r :: r[id] == put[id])
      && (forall id: nat | cache.second <= id < cache.second + k - n :: InTail(cache, id))
  {
    var n := PartCount(|text|);
    var puts := Puts(text, NewSecond(cache, n), n);
    var deletes := Deletes(cache.second, cache.second + cache.total - 1);
    assert Requests(text, cache)[..k] == puts + deletes[..k - n];
    assert Requests(text, cache)[..n] == puts;
    ApplyAllConcat(items, puts, deletes[..k - n]);
    DeletesEffect(ApplyAll(items, puts), cache.second, cache.second + cache.total - 1, k - n);
  }

  /** A tail begins at 2, or right behind the tail before it, where it is below the old and the new number of parts. */
  lemma NewSecondIsLow(cache: Cache, total: nat)
    ensures var second := NewSecond(cache, total); second == 0 || second == 2 || second < cache.total + total
  {
  }

  /** The tail of a write never meets the tail its cache describes. */
  lemma NewTailIsApart(cache: Cache, total: nat)
    requires Sane(cache)
    ensures Apart(cache, Cache(total, NewSecond(cache, total))) && Apart(Cache(total, NewSecond(cache, total)), cache)
    ensures SecondFits(NewSecond(cache, total), total)
  {
  }

  /** The store holds `text` under the head `head`, among whatever else. */
  ghost predicate Holds(items: Items, text: string, head: Cache)
    requires text != ""
  {
    && head.total == PartCount(|text|) && SecondFits(head.second, head.total)
    && 1 in items && items[1] == Item(head.second, head.total, Part(text, 0))
    && (forall id: nat | InTail(head, id) :: id in items && items[id].data == Part(text, id - head.second + 1))
  }

  /** What follows part `a - 1`. */
  function From(text: string, a: nat): (rest: string) {
    if a * PART_SIZE < |text| then text[a * PART_SIZE..] else ""
  }

  lemma PartThenRest(text: string, a: nat)
    requires a < PartCount(|text|)
    ensures From(text, a) == Part(text, a) + From(text, a + 1)
  {
  }

  lemma NothingFollows(text: string, a: nat)
    requires PartCount(|text|) <= a
    ensures From(text, a) == ""
  {
  }

  lemma TailIsThere(items: Items, text: string, head: Cache)
    requires text != "" && Holds(items, text, head) && head.total > 1
    ensures forall id | head.second <= id < head.second + head.total - 1 :: id in items
  {
    assert forall id: nat | head.second <= id < head.second + head.total - 1 :: InTail(head, id);
  }

  lemma {:induction false} PartsJoin(items: Items, text: string, head: Cache, id: nat)
    requires text != "" && Holds(items, text, head) && head.total > 1
    requires head.second <= id <= head.second + head.total - 1
    requires forall other | head.second <= other < head.second + head.total - 1 :: other in items
    ensures Joined(items, id, head.second + head.total - 1) == From(text, id - head.second + 1)
    decreases head.second + head.total - id
  {
    var end, a := head.second + head.total - 1, id - head.second + 1;
    if id < end {
      PartsJoin(items, text, head, id + 1);
      assert InTail(head, id);
      assert Joined(items, id, end) == Part(text, a) + Joined(items, id + 1, end);
      PartThenRest(text, a);
    } else {
      NothingFollows(text, a);
    }
  }

  lemma HeldHead(items: Items, text: string, head: Cache)
    requires text != "" && Holds(items, text, head)
    ensures HeadOf(items) == head && Complete(items)
  {
    assert forall id: nat | head.total > 1 && head.second <= id < head.second + head.total - 1 :: InTail(head, id);
  }

  lemma HeldTextLoads(items: Items, text: string, head: Cache)
    requires text != "" && Holds(items, text, head)
    ensures Load(items) == text && HeadOf(items) == head && Complete(items)
  {
    HeldHead(items, text, head);
    PartThenRest(text, 0);
    assert From(text, 0) == text;
    if head.total > 1 {
      TailIsThere(items, text, head);
      PartsJoin(items, text, head, head.second);
      LoadOfTail(items);
    } else {
      NothingFollows(text, 1);
      LoadOfHead(items);
      assert items[1].data + "" == items[1].data;
    }
  }

  lemma PutTextHeld(items: Items, cache: Cache, text: string)
    requires Sane(cache) && text != ""
    ensures Holds(Crashed(items, cache, text, PartCount(|text|)), text, NewHead(cache, text))
  {
    var n := PartCount(|text|);
    DuringPuts(items, cache, text, n);
    assert Hit(NewSecond(cache, n), 0, n, 1);
    assert forall id: nat | InTail(NewHead(cache, text), id) :: Hit(NewSecond(cache, n), 0, n, id);
  }

  /** Once the head is put, the store holds the new text whatever has been deleted of the old tail. */
  lemma NewTextHeld(items: Items, cache: Cache, text: string, k: nat)
    requires Sane(cache) && text != "" && PartCount(|text|) <= k <= |Requests(text, cache)|
    ensures Holds(Crashed(items, cache, text, k), text, NewHead(cache, text))
  {
    PutTextHeld(items, cache, text);
    NewTailIsApart(cache, PartCount(|text|));
    DuringDeletes(items, cache, text, k);
  }

  lemma NewTextLoads(items: Items, cache: Cache, text: string, k: nat)
    requires Sane(cache) && text != "" && PartCount(|text|) <= k <= |Requests(text, cache)|
    ensures var r := Crashed(items, cache, text, k);
      Load(r) == text && HeadOf(r) == NewHead(cache, text) && Complete(r)
  {
    NewTextHeld(items, cache, text, k);
    HeldTextLoads(Crashed(items, cache, text, k), text, NewHead(cache, text));
  }

  /** Until the head is put, the old text loads, provided the new tail is apart from the live one. */
  lemma OldTextLoads(items: Items, cache: Cache, text: string, k: nat)
    requires Complete(items) && Sane(cache) && k < PartCount(|text|)
    requires Apart(HeadOf(items), NewHead(cache, text))
    ensures var r := Crashed(items, cache, text, k);
      Load(r) == Load(items) && HeadOf(r) == HeadOf(items) && Complete(r)
  {
    var n := PartCount(|text|);
    var second, r := NewSecond(cache, n), Crashed(items, cache, text, k);
    DuringPuts(items, cache, text, k);
    assert !Hit(second, n - k, n, 1);
    forall id | InTail(HeadOf(items), id)
      ensures id in r && r[id].data == items[id].data
    {
      assert !InTail(NewHead(cache, text), id) && !Hit(second, n - k, n, id);
    }
    LoadSame(items, r);
  }

  // ----- crash atomicity -----

  /**
   Stopping a write between any two requests leaves the whole old text or the whole new one: the
   put of the head is what commits it.
   */
  lemma CrashAtomic(items: Items, cache: Cache, text: string, k: nat)
    requires Complete(items) && cache == HeadOf(items)
    requires text != "" && k <= |Requests(text, cache)|
    ensures Load(Crashed(items, cache, text, k)) == if k < PartCount(|text|) then Load(items) else text
  {
    NewTailIsApart(cache, PartCount(|text|));
    if k < PartCount(|text|) {
      OldTextLoads(items, cache, text, k);
    } else {
      NewTextLoads(items, cache, text, k);
    }
  }

  lemma {:induction false} JoinedSplit(items: Items, from: nat, mid: nat, end: nat)
    requires from <= mid <= end && forall id | from <= id < end :: id in items
    ensures Joined(items, from, end) == Joined(items, from, mid) + Joined(items, mid, end)
    decreases mid - from
  {
    if from < mid {
      JoinedSplit(items, from + 1, mid, end);
    }
  }

  lemma JoinedDiffers(a: Items, b: Items, from: nat, id: nat, end: nat)
    requires from <= id < end && forall other | from <= other < end :: other in a && other in b
    requires forall other | from <= other < end && other != id :: a[other].data == b[other].data
    requires a[id].data != "" && b[id].data != "" && a[id].data[0] != b[id].data[0]
    ensures Joined(a, from, end) != Joined(b, from, end)
  {
    JoinedSplit(a, from, id, end);
    JoinedSplit(b, from, id, end);
    JoinedSame(a, b, from, id);
    var at := |Joined(a, from, id)|;
    assert Joined(a, from, end)[at] == a[id].data[0];
    assert Joined(b, from, end)[at] == b[id].data[0];
  }

  /** Replacing one live part by one that starts differently changes what loads. */
  lemma OverwrittenPartShows(items: Items, r: Items, id: nat)
    requires Complete(items) && InTail(HeadOf(items), id) && r.Keys >= items.Keys
    requires forall other | other in items && (other == 1 || InTail(HeadOf(items), other)) && other != id ::
      r[other] == items[other]
    requires r[id].data != "" && r[id].data[0] != items[id].data[0]
    ensures Load(r) != Load(items) && |Load(r)| > 0 && Load(r)[0] == items[1].data[0]
  {
    var head := HeadOf(items);
    var end := head.second + head.total - 1;
    assert 1 in items && r[1] == items[1] && HeadOf(r) == head;
    LoadOfTail(items);
    LoadOfTail(r);
    assert forall other: nat | head.second <= other < end && other != id ::
      InTail(head, other) && r[other] == items[other];
    JoinedDiffers(items, r, head.second, id, end);
    AfterSameStart(items[1].data, Joined(items, head.second, end), Joined(r, head.second, end));
  }

  lemma AfterSameStart(h: string, x: string, y: string)
    requires h != "" && x != y
    ensures h + x != h + y && |h + y| > 0 && (h + y)[0] == h[0]
  {
    assert (h + x)[|h|..] == x && (h + y)[|h|..] == y;
  }

  ghost function HighestCommon(a: Cache, b: Cache, id: nat): (r: nat)
    requires InTail(a, id) && InTail(b, id)
    ensures InTail(a, r) && InTail(b, r) && forall other | r < other && InTail(a, other) :: !InTail(b, other)
    decreases a.second + a.total - id
  {
    if other: nat :| id < other && InTail(a, other) && InTail(b, other) then HighestCommon(a, b, other) else id
  }

  function Uniform(c: char, total: nat): (text: string)
    requires total > 0
    ensures PartCount(|text|) == total && forall i | 0 <= i < |text| :: text[i] == c
  {
    seq((total - 1) * PART_SIZE + 1, _ => c)
  }

  /** If the new tail meets the live one, some text of that many parts can be caught half written. */
  lemma MeetingTailsMix(items: Items, cache: Cache, total: nat, common: nat) returns (text: string, k: nat)
    requires Complete(items) && Sane(cache) && total > 0
    requires InTail(HeadOf(items), common) && InTail(Cache(total, NewSecond(cache, total)), common)
    ensures text != "" && PartCount(|text|) == total && k <= |Requests(text, cache)|
    ensures Load(Crashed(items, cache, text, k)) != Load(items) && Load(Crashed(items, cache, text, k)) != text
  {
    var second := NewSecond(cache, total);
    var id := HighestCommon(HeadOf(items), Cache(total, second), common);
    var a, b := items[1].data[0], items[id].data[0];
    var c := if a != 'A' && b != 'A' then 'A' else if a != 'B' && b != 'B' then 'B' else 'C';
    text := Uniform(c, total);
    k := total - (id - second + 1);
    HighestOverwritten(items, cache, text, id, k);
    OverwrittenPartShows(items, Crashed(items, cache, text, k), id);
  }

  /** Stopping right after the put over the highest live part leaves every other live part alone. */
  lemma HighestOverwritten(items: Items, cache: Cache, text: string, id: nat, k: nat)
    requires Complete(items) && Sane(cache) && text != ""
    requires InTail(HeadOf(items), id) && InTail(NewHead(cache, text), id)
    requires forall other | id < other && InTail(HeadOf(items), other) :: !InTail(NewHead(cache, text), other)
    requires k == PartCount(|text|) - (id - NewSecond(cache, PartCount(|text|)) + 1)
    ensures var r := Crashed(items, cache, text, k);
      && r.Keys >= items.Keys
      && r[id].data == Part(text, id - NewSecond(cache, PartCount(|text|)) + 1)
      && forall other | other in items && (other == 1 || InTail(HeadOf(items), other)) && other != id ::
        r[other] == items[other]
  {
    var total := PartCount(|text|);
    var second, r := NewSecond(cache, total), Crashed(items, cache, text, k);
    DuringPuts(items, cache, text, k);
    assert Hit(second, total - k, total, id) && !Hit(second, total - k, total, 1);
    forall other | other in items && (other == 1 || InTail(HeadOf(items), other)) && other != id
      ensures r[other] == items[other]
    {
      assert !Hit(second, total - k, total, other);
    }
  }

  ghost predicate AtomicFor(items: Items, cache: Cache, text: string) {
    forall k: nat | k <= |Requests(text, cache)| ::
      Load(Crashed(items, cache, text, k)) == Load(items) || Load(Crashed(items, cache, text, k)) == text
  }

  /**
   With whatever the cache holds, writes of `total` parts are atomic exactly when the tail they
   would put does not meet the live one.
   */
  lemma AtomicExactlyWhenApart(items: Items, cache: Cache, total: nat)
    requires Complete(items) && Sane(cache) && total > 0
    ensures Apart(HeadOf(items), Cache(total, NewSecond(cache, total))) <==>
      forall text: string | text != "" && PartCount(|text|) == total :: AtomicFor(items, cache, text)
  {
    var head, tail := HeadOf(items), Cache(total, NewSecond(cache, total));
    if Apart(head, tail) {
      forall text: string, k: nat | text != "" && PartCount(|text|) == total && k <= |Requests(text, cache)|
        ensures Load(Crashed(items, cache, text, k)) == Load(items) || Load(Crashed(items, cache, text, k)) == text
      {
        if k < total {
          OldTextLoads(items, cache, text, k);
        } else {
          NewTextLoads(items, cache, text, k);
        }
      }
    } else {
      var common :| InTail(head, common) && InTail(tail, common);
      var text, k := MeetingTailsMix(items, cache, total, common);
      assert !AtomicFor(items, cache, text);
    }
  }

  /**
   After a write whose deletes failed, the cache still describes the tail before it.  Writing as
   many parts again, of another text, puts them over the live tail.
   */
  lemma StaleRetryIsNotAtomic(items: Items, cache: Cache, text: string, k: nat)
    requires Complete(items) && cache == HeadOf(items) && PartCount(|text|) > 1
    requires PartCount(|text|) <= k <= |Requests(text, cache)|
    ensures exists other: string | other != "" && PartCount(|other|) == PartCount(|text|) ::
      !AtomicFor(Crashed(items, cache, text, k), cache, other)
  {
    var total := PartCount(|text|);
    var r := Crashed(items, cache, text, k);
    NewTextLoads(items, cache, text, k);
    assert InTail(HeadOf(r), NewSecond(cache, total));
    AtomicExactlyWhenApart(r, cache, total);
  }

  // ----- runs -----

  /** A location in the store, and what the server remembers of it. */
  datatype Location = Location(items: Items, cache: Cache)

  /** A write that stops after `done` requests, or answers after all of them; or a load. */
  datatype Event = Stopped(text: string, done: nat) | Written(text: string) | Loaded

  const EMPTY := Location(map[], Cache(0, 0))

  function Step(l: Location, e: Event): Location {
    match e
    case Stopped(text, done) =>
      var all := |Requests(text, l.cache)|;
      l.(items := Crashed(l.items, l.cache, text, if done < all then done else all))
    case Written(text) =>
      Location(Crashed(l.items, l.cache, text, |Requests(text, l.cache)|), NewHead(l.cache, text))
    case Loaded => l.(cache := HeadOf(l.items))
  }

  /** The text whose head was put last. */
  function Commit(committed: string, e: Event): string {
    match e
    case Stopped(text, done) => if done < PartCount(|text|) then committed else text
    case Written(text) => text
    case Loaded => committed
  }

  /** Writes carry a text and do not reach into the live tail, as is the case if the cache is fresh. */
  ghost predicate Allowed(l: Location, e: Event) {
    e.Loaded? || (e.text != "" && Apart(HeadOf(l.items), NewHead(l.cache, e.text)))
  }

  ghost function Run(start: Location, events: seq<Event>): Location {
    if events == [] then start else Step(Run(start, events[..|events| - 1]), events[|events| - 1])
  }

  function Committed(initial: string, events: seq<Event>): string {
    if events == [] then initial else Commit(Committed(initial, events[..|events| - 1]), events[|events| - 1])
  }

  ghost predicate AllAllowed(start: Location, events: seq<Event>) {
    forall i | 0 <= i < |events| :: Allowed(Run(start, events[..i]), events[i])
  }

  lemma AllowedBefore(start: Location, events: seq<Event>)
    requires events != [] && AllAllowed(start, events)
    ensures var before := events[..|events| - 1];
      AllAllowed(start, before) && Allowed(Run(start, before), events[|events| - 1])
  {
    var before := events[..|events| - 1];
    forall i | 0 <= i < |before|
      ensures Allowed(Run(start, before[..i]), before[i])
    {
      assert before[..i] == events[..i] && before[i] == events[i];
    }
  }

  lemma FreshIsAllowed(l: Location, text: string)
    requires Complete(l.items) && l.cache == HeadOf(l.items) && text != ""
    ensures Allowed(l, Written(text)) && forall done :: Allowed(l, Stopped(text, done))
  {
    NewTailIsApart(l.cache, PartCount(|text|));
  }

  lemma StepKeepsCommitted(l: Location, e: Event)
    requires Complete(l.items) && Sane(l.cache) && Allowed(l, e)
    ensures Complete(Step(l, e).items) && Sane(Step(l, e).cache)
    ensures Load(Step(l, e).items) == Commit(Load(l.items), e)
  {
    if !e.Loaded? {
      var all := |Requests(e.text, l.cache)|;
      var k := if e.Stopped? && e.done < all then e.done else all;
      if k < PartCount(|e.text|) {
        OldTextLoads(l.items, l.cache, e.text, k);
      } else {
        NewTextLoads(l.items, l.cache, e.text, k);
      }
    }
  }

  /** Through any mix of writes, failures at any request and loads, the last committed text loads. */
  lemma {:induction false} CommittedTextLoads(start: Location, events: seq<Event>)
    requires Complete(start.items) && Sane(start.cache) && AllAllowed(start, events)
    ensures var l := Run(start, events);
      Complete(l.items) && Sane(l.cache) && Load(l.items) == Committed(Load(start.items), events)
  {
    if events != [] {
      var before := events[..|events| - 1];
      AllowedBefore(start, events);
      CommittedTextLoads(start, before);
      StepKeepsCommitted(Run(start, before), events[|events| - 1]);
    }
  }

  /** Nothing is stored but the head and its tail. */
  ghost predicate Clean(items: Items) {
    forall id :: id in items <==> (id == 1 && 1 in items) || InTail(HeadOf(items), id)
  }

  lemma FullWriteIsClean(l: Location, text: string)
    requires Complete(l.items) && Clean(l.items) && l.cache == HeadOf(l.items) && text != ""
    ensures var r := Step(l, Written(text));
      Complete(r.items) && Clean(r.items) && r.cache == HeadOf(r.items) && Load(r.items) == text
  {
    var all, n := |Requests(text, l.cache)|, PartCount(|text|);
    NewTextLoads(l.items, l.cache, text, all);
    NewTailIsApart(l.cache, n);
    DuringPuts(l.items, l.cache, text, n);
    DuringDeletes(l.items, l.cache, text, all);
    var put, r := Crashed(l.items, l.cache, text, n), Crashed(l.items, l.cache, text, all);
    forall id: nat
      ensures id in r <==> id == 1 || InTail(NewHead(l.cache, text), id)
    {
      assert Hit(NewSecond(l.cache, n), 0, n, id) <==> id == 1 || InTail(NewHead(l.cache, text), id);
      assert id in l.items <==> (id == 1 && 1 in l.items) || InTail(l.cache, id);
      assert l.cache.second <= id < l.cache.second + all - n <==> InTail(l.cache, id);
    }
  }

  ghost function AfterWrites(texts: seq<string>): Location {
    if texts == [] then EMPTY else Step(AfterWrites(texts[..|texts| - 1]), Written(texts[|texts| - 1]))
  }

  /**
   After any sequence of successful writes the last text loads, nothing else is stored, and part
   ids stay below three times the largest number of parts ever written.
   */
  lemma {:induction false} SuccessfulWrites(texts: seq<string>, most: nat)
    requires forall i | 0 <= i < |texts| :: texts[i] != "" && PartCount(|texts[i]|) <= most
    ensures var l := AfterWrites(texts);
      && Complete(l.items) && Clean(l.items) && l.cache == HeadOf(l.items)
      && Load(l.items) == (if texts == [] then "" else texts[|texts| - 1])
      && l.cache.total <= most && l.cache.second <= 2 * most
      && (forall id | id in l.items :: id < 3 * most)
      && (texts != [] ==>
            var before := AfterWrites(texts[..|texts| - 1]).cache;
            l.cache.second == 0 || l.cache.second == 2 || l.cache.second < before.total + l.cache.total)
  {
    if texts != [] {
      var before, text := texts[..|texts| - 1], texts[|texts| - 1];
      SuccessfulWrites(before, most);
      FullWriteIsClean(AfterWrites(before), text);
      assert AfterWrites(texts).cache == NewHead(AfterWrites(before).cache, text);
      NewSecondIsLow(AfterWrites(before).cache, PartCount(|text|));
    }
  }
}
