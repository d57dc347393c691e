/**
 The server's side of the multipart store: the loops that issue the requests one by one.

 The remote table is a field here because every request changes it in place.  `budget` is how many
 requests still succeed; the first one beyond it reports failure, having taken effect if `lost`.
 */
module MultipartServer {
  import opened MultipartStore

  const MIN_GUEST_GAMESTATE_ID := 1000000000

  class Server {
    var items: Items
    var cache: Cache

    constructor ()
      ensures items == map[] && cache == Cache(0, 0)
    {
      items, cache := map[], Cache(0, 0);
    }

    method Perform(r: Request, budget: nat, lost: bool) returns (ok: bool)
      modifies this`items
      ensures ok == (budget > 0)
      ensures items == if ok || lost then Apply(old(items), r) else old(items)
    {
      ok := budget > 0;
      if ok || lost {
        match r {
          case Put(id, item) => items := items[id := item];
          case Delete(id) => items := items - {id};
        }
      }
    }

    /** Puts the parts of `text`, the head last. */
    method PutParts(text: string, second: nat, budget: nat, lost: bool) returns (ok: bool, left: nat)
      modifies this`items
      ensures var n, puts := PartCount(|text|), Puts(text, second, PartCount(|text|));
        && ok == (budget >= n)
        && (ok ==> left == budget - n && items == ApplyAll(old(items), puts))
        && (!ok ==> items == ApplyAll(old(items), puts[..budget + if lost then 1 else 0]))
    {
      var total := PartCount(|text|);
      ghost var puts := Puts(text, second, total);
      var a := total;
      left := budget;
      while a > 0
        invariant a <= total && left == budget - (total - a)
        invariant items == ApplyAll(old(items), puts[..total - a])
      {
        PutsAt(text, second, total, total - a);
        ApplyNext(old(items), puts, total - a);
        ok := Perform(Put(PartId(second, a - 1), Item(second, total, Part(text, a - 1))), left, lost);
        if !ok {
          return;
        }
        left := left - 1;
        a := a - 1;
      }
      assert puts[..total] == puts;
      ok := true;
    }

    /** Deletes the items `from` to `end - 1`. */
    method DeleteParts(from: nat, end: int, budget: nat, lost: bool) returns (ok: bool)
      modifies this`items
      ensures var deletes := Deletes(from, end);
        && ok == (budget >= |deletes|)
        && (ok ==> items == ApplyAll(old(items), deletes))
        && (!ok ==> items == ApplyAll(old(items), deletes[..budget + if lost then 1 else 0]))
    {
      ghost var deletes := Deletes(from, end);
      var a := from;
      var left := budget;
      while a < end
        invariant from <= a <= from + |deletes| && left == budget - (a - from)
        invariant items == ApplyAll(old(items), deletes[..a - from])
      {
        DeletesAt(from, end, a - from);
        ApplyNext(old(items), deletes, a - from);
        ok := Perform(Delete(a), left, lost);
        if !ok {
          return;
        }
        left := left - 1;
        a := a + 1;
      }
      assert deletes[..a - from] == deletes;
      ok := true;
    }

    /**
     Writes a gamestate.  The cache changes only if every request succeeded.  Gamestates of guests
     are reported as written and left alone.
     */
    method WriteLocation(gamestateId: nat, text: string, budget: nat, lost: bool) returns (ok: bool)
      modifies this
      ensures gamestateId >= 1000000000 ==> ok && items == old(items) && cache == old(cache)
      ensures gamestateId < 1000000000 ==>
        var all := |Requests(text, old(cache))|;
        && ok == (budget >= all)
        && cache == (if ok then NewHead(old(cache), text) else old(cache))
        && items == Crashed(old(items), old(cache), text, if ok then all else budget + if lost then 1 else 0)
      ensures (gamestateId < 1000000000 && text != "" &&
               Complete(old(items)) && old(cache) == HeadOf(old(items))) ==>
        && (Load(items) == text || (!ok && Load(items) == Load(old(items))))
        && (ok ==> cache == HeadOf(items) && Complete(items))
    {
      if gamestateId >= MIN_GUEST_GAMESTATE_ID {
        return true;
      }
      var total := PartCount(|text|);
      var second := NewSecond(cache, total);
      ghost var requests, puts := Requests(text, cache), Puts(text, second, total);
      ghost var deletes := Deletes(cache.second, cache.second + cache.total - 1);
      ghost var k := if budget >= |requests| then |requests| else budget + if lost then 1 else 0;
      var left;
      ok, left := PutParts(text, second, budget, lost);
      if !ok {
        assert requests[..k] == puts[..k];
      } else {
        ok := DeleteParts(cache.second, cache.second + cache.total - 1, left, lost);
        assert requests[..k] == puts + deletes[..k - total];
        assert deletes[..|deletes|] == deletes;
        ApplyAllConcat(old(items), puts, deletes[..k - total]);
        if ok {
          cache := Cache(total, second);
        }
      }
      WriteIsAtomic(old(items), old(cache), text, k);
    }

    lemma WriteIsAtomic(before: Items, remembered: Cache, text: string, k: nat)
      requires k <= |Requests(text, remembered)|
      ensures text != "" && Complete(before) && remembered == HeadOf(before) ==>
        var after := Crashed(before, remembered, text, k);
        && Load(after) == (if k < PartCount(|text|) then Load(before) else text)
        && (k >= PartCount(|text|) ==> HeadOf(after) == NewHead(remembered, text) && Complete(after))
    {
      if text != "" && Complete(before) && remembered == HeadOf(before) {
        CrashAtomic(before, remembered, text, k);
        if k >= PartCount(|text|) {
          NewTextLoads(before, remembered, text, k);
        }
      }
    }

    /** Answers a range query: at most `limit` items from `start` on, joined in the order of their ids. */
    method QueryItems(start: nat, limit: nat) returns (text: string)
      ensures text == Query(items, start, limit)
    {
      text := "";
      var from: nat, left: nat := start, limit;
      while left > 0 && HasFrom(items, from)
        invariant Query(items, start, limit) == text + Query(items, from, left)
        decreases left
      {
        FirstFromExists(items, from);
        var id: nat :| id in items && IsFirstFrom(items, from, id);
        QueryNext(items, from, left, id);
        text := text + items[id].data;
        from, left := id + 1, left - 1;
      }
    }

    /** Loads a gamestate and refreshes the cache from the head, even if the query for the tail fails. */
    method LoadLocation(budget: nat) returns (ok: bool, text: string)
      modifies this`cache
      ensures budget > 0 ==> cache == HeadOf(items)
      ensures budget == 0 ==> cache == old(cache)
      ensures ok == (budget >= if HeadOf(items).total > 1 then 2 else 1)
      ensures ok ==> text == Load(items)
    {
      text := "";
      if budget == 0 {
        return false, "";
      }
      var total, second := 0, 0;
      if 1 in items {
        text, total, second := items[1].data, items[1].total, items[1].second;
      }
      if total > 1 && second == 0 {
        second := 2;
      }
      cache := Cache(total, second);
      if total > 1 {
        if budget == 1 {
          return false, text;
        }
        var rest := QueryItems(second, total - 1);
        text := text + rest;
      }
      ok := true;
    }
  }
}
