/**
 The vending service: the inventory operations and the purchase rule over a
 snack store, and the validators the menu uses. Adding, removing or editing
 a snack that exists and every sale append a line to the audit trail;
 loading, saving and a change to a missing snack log nothing. The audit
 trail is the sequence of operations logged so far; the time stamps the
 audit store adds to each line are not part of this model.
 */
module Service {
  import opened Snacks
  import opened Inventory

  /** A file name is accepted only without a '.', since the store adds ".txt" itself. */
  function ValidateFilename(filename: string): (ok: bool)
    ensures ok <==> forall i :: 0 <= i < |filename| ==> filename[i] != '.'
  {
    '.' !in filename
  }

  /** A key under which `v` is stored. */
  lemma {:induction false} KeyOf<K, V>(m: map<K, V>, v: V) returns (k: K)
    requires v in m.Values
    ensures k in m && m[k] == v
  {
    k :| k in m && m[k] == v;
  }

  class VendingService {
    const store: Store
    var audit: seq<string>

    constructor (store: Store)
      ensures this.store == store
      ensures audit == []
    {
      this.store := store;
      audit := [];
    }

    /** Appends one line to the audit trail. */
    method LogAudit(operation: string)
      modifies this
      ensures audit == old(audit) + [operation]
    {
      audit := audit + [operation];
    }

    /** Whether a snack is kept under `i`. */
    function ValidateSnackExists(i: int): (ok: bool)
      reads store
      ensures ok <==> store.GetSnack(i).Some?
    {
      i in store.GetMachineStock()
    }

    /**
     Whether some snack is called exactly `name`: every snack in the store is
     looked at, in no particular order.
     */
    method ValidateSnackNameExists(name: string) returns (found: bool)
      ensures found <==> exists k :: k in store.snacks && store.snacks[k].name == name
    {
      var stock := store.GetMachineStock();
      var remaining := stock.Values;
      found := false;
      while remaining != {}
        invariant remaining <= stock.Values
        invariant found <==> exists s :: s in stock.Values && s !in remaining && s.name == name
        decreases remaining
      {
        var s := Pick(remaining);
        found := s.name == name || found;
        remaining := remaining - {s};
      }
      if found {
        ghost var s :| s in stock.Values && s.name == name;
        ghost var k := KeyOf(stock, s);
        assert store.GetSnack(k) == Some(s);
      } else {
        forall k | k in store.snacks
          ensures store.snacks[k].name != name
        {
          assert store.GetSnack(k).Some?;
          assert stock[k] in stock.Values;
        }
      }
    }

    /** Whether `choice` is at most the number of snacks in the store. */
    function ValidateSnackSelection(choice: int): (ok: bool)
      reads store
      ensures ok <==> choice <= |store.GetMachineStock().Keys|
    {
      |store.GetMachineStock()| >= choice
    }

    /** Stores the snack under the next number and logs it. */
    method AddSnack(snack: Snack)
      requires store.Valid()
      modifies this, store
      ensures store.index == old(store.index) + 1
      ensures store.index !in old(store.snacks)
      ensures store.snacks == old(store.snacks)[store.index := snack]
      ensures audit == old(audit) + ["Added snack '" + snack.name + "'"]
      ensures store.Valid()
    {
      store.AddSnack(snack.name, snack.count, snack.price);
      LogAudit("Added snack '" + snack.name + "'");
    }

    /**
     Removes the snack under `i` and logs its name; without such a snack
     nothing changes and nothing is logged.
     */
    method RemoveSnack(i: int)
      requires store.Valid()
      modifies this, store
      ensures i in old(store.snacks) ==>
        && store.snacks == old(store.snacks) - {i}
        && audit == old(audit) + ["Removed snack '" + old(store.snacks)[i].name + "'"]
      ensures i !in old(store.snacks) ==> store.snacks == old(store.snacks) && audit == old(audit)
      ensures store.index == old(store.index)
      ensures store.Valid()
    {
      if ValidateSnackExists(i) {
        var name := store.GetSnack(i).value.name;
        var _ := store.RemoveSnack(i);
        LogAudit("Removed snack '" + name + "'");
      }
    }

    /**
     Replaces the snack under `i` and logs the new name; without such a
     snack nothing changes and nothing is logged.
     */
    method EditSnack(i: int, snack: Snack)
      requires store.Valid()
      modifies this, store
      ensures i in old(store.snacks) ==>
        && store.snacks == old(store.snacks)[i := snack]
        && audit == old(audit) + ["Edited snack '" + snack.name + "'"]
      ensures i !in old(store.snacks) ==> store.snacks == old(store.snacks) && audit == old(audit)
      ensures store.snacks.Keys == old(store.snacks.Keys)
      ensures store.index == old(store.index)
      ensures store.Valid()
    {
      if ValidateSnackExists(i) {
        var _ := store.EditSnack(i, snack.name, snack.count, snack.price);
        LogAudit("Edited snack '" + snack.name + "'");
      }
    }

    /**
     Sells one item of the snack under `i`: with more than one left the
     count goes down by one; with one (or fewer) left the snack is removed,
     so the snack sold is never left with none. Either way the sale is logged.
     */
    method PurchaseSnack(i: int)
      requires store.Valid()
      requires i in store.snacks
      modifies this, store
      ensures old(store.snacks[i]).count > 1 ==>
        && store.snacks == old(store.snacks)[i := old(store.snacks[i]).(count := old(store.snacks[i]).count - 1)]
        && audit == old(audit) + [old(store.snacks[i]).name + " purchased."]
      ensures old(store.snacks[i]).count <= 1 ==>
        && store.snacks == old(store.snacks) - {i}
        && audit == old(audit) + [old(store.snacks[i]).name + " purchased. Now out of stock"]
      ensures i in store.snacks ==> store.snacks[i].count >= 1
      ensures AllInStock(old(store.snacks)) ==> AllInStock(store.snacks)
      ensures store.index == old(store.index)
      ensures store.Valid()
    {
      var s := store.GetSnack(i).value;
      if s.count > 1 {
        var _ := store.EditSnack(i, s.name, s.count - 1, s.price);
        LogAudit(s.name + " purchased.");
      } else {
        var _ := store.RemoveSnack(i);
        LogAudit(s.name + " purchased. Now out of stock");
      }
    }

    /** Loads the stock from `lines`; a failed load is reported with one generic message. */
    method LoadStock(lines: seq<string>) returns (error: Option<string>)
      requires store.Valid()
      modifies store
      ensures error.None? <==> DecodeAll(lines).Some?
      ensures error.Some? ==> error.value == "Error loading stock"
      ensures error.None? ==> store.snacks == Numbered(DecodeAll(lines).value) && store.index == |lines| + 1
      ensures error.Some? ==> store.snacks == old(store.snacks) && store.index == old(store.index)
      ensures store.Valid()
    {
      var ok := store.LoadMachineStock(lines);
      error := if ok then None else Some("Error loading stock");
    }

    /** The lines of the saved stock, one per snack in stock. */
    method SaveStock() returns (lines: seq<string>, ghost keys: seq<int>)
      ensures SavedAs(store.snacks, keys, lines)
    {
      lines, keys := store.SaveMachineStock();
    }
  }
}
