// The item table and the atomic DAO statements on it, with the sums that
// transfers must conserve.
module ItemStore {
  import opened Wrappers
  import opened Sequences

  // Everything a transfer copies from one row to another.
  datatype Attrs = Attrs(
    gameId: string, name: string, itemType: string, category: string, rarity: string,
    maxQuantity: int, isBound: bool, isTradable: bool, expireAt: Option<int>,
    description: string, iconUrl: string)

  datatype Item = Item(itemId: string, userId: string, attrs: Attrs, quantity: int)

  // The table in primary key order.
  type Rows = seq<Item>

  ghost predicate UniqueIds(rows: Rows) {
    forall i, j :: 0 <= i < j < |rows| ==> rows[i].itemId != rows[j].itemId
  }

  ghost predicate NonNegative(rows: Rows) {
    forall i :: 0 <= i < |rows| ==> rows[i].quantity >= 0
  }

  // The position of the first row with this id; |rows| when there is none.
  function Position(rows: Rows, id: string): (p: nat)
    ensures p <= |rows|
    ensures p < |rows| ==> rows[p].itemId == id
    ensures forall i :: 0 <= i < p ==> rows[i].itemId != id
  {
    if rows == [] || rows[0].itemId == id then 0 else 1 + Position(rows[1..], id)
  }

  // ---------- DAO statements ----------

  function FindById(rows: Rows, id: string): Option<Item> {
    var p := Position(rows, id);
    if p < |rows| then Some(rows[p]) else None
  }

  function UserItems(rows: Rows, userId: string, gameId: string): (r: seq<Item>)
    ensures forall x :: x in r ==>
      x in rows && x.userId == userId && (gameId == "" || x.attrs.gameId == gameId)
  {
    if rows == [] then []
    else if rows[0].userId == userId && (gameId == "" || rows[0].attrs.gameId == gameId)
    then [rows[0]] + UserItems(rows[1..], userId, gameId)
    else UserItems(rows[1..], userId, gameId)
  }

  lemma {:induction false} UserItemsExactly(rows: Rows, userId: string, gameId: string)
    ensures forall x :: x in UserItems(rows, userId, gameId) <==>
      x in rows && x.userId == userId && (gameId == "" || x.attrs.gameId == gameId)
  {
    if rows != [] {
      UserItemsExactly(rows[1..], userId, gameId);
      assert rows == [rows[0]] + rows[1..];
    }
  }

  // UPDATE ... SET quantity = quantity + delta WHERE item_id = id; no row, no effect.
  function Adjust(rows: Rows, id: string, delta: int): (r: Rows)
    ensures |r| == |rows|
  {
    var p := Position(rows, id);
    if p < |rows| then rows[p := rows[p].(quantity := rows[p].quantity + delta)] else rows
  }

  // The guarded decrement; None when no row was affected.
  function Consume(rows: Rows, id: string, quantity: int): Option<Rows> {
    var p := Position(rows, id);
    if p < |rows| && rows[p].quantity >= quantity then Some(Adjust(rows, id, -quantity)) else None
  }

  // The insert; None when the unique index on the id refuses it.
  function Create(rows: Rows, item: Item): Option<Rows> {
    if Position(rows, item.itemId) < |rows| then None else Some(rows + [item])
  }

  // A lookup finds a row if and only if the table has it under that id.
  lemma FindByIdExactly(rows: Rows, id: string)
    requires UniqueIds(rows)
    ensures forall x :: FindById(rows, id) == Some(x) <==> x in rows && x.itemId == id
    ensures FindById(rows, id) == None <==> forall x :: x in rows ==> x.itemId != id
  {
    forall x | x in rows && x.itemId == id ensures FindById(rows, id) == Some(x) {
      MemberFound(rows, x);
    }
  }

  // ---------- The table as the service sees it ----------

  class Dao {
    var rows: Rows

    constructor (rows: Rows)
      ensures this.rows == rows
    {
      this.rows := rows;
    }

    method GetItemByID(id: string, fails: bool) returns (r: Result<Option<Item>, ()>)
      ensures r.Ok? && r.value.Some? ==> r.value.value in rows && r.value.value.itemId == id
      ensures r.Ok? && r.value.None? ==> forall x :: x in rows ==> x.itemId != id
      ensures r == if fails then Err(()) else Ok(FindById(rows, id))
    {
      r := if fails then Err(()) else Ok(FindById(rows, id));
    }

    method GetUserItems(userId: string, gameId: string, fails: bool) returns (r: Result<seq<Item>, ()>)
      ensures r.Ok? ==> forall x :: x in r.value <==>
        x in rows && x.userId == userId && (gameId == "" || x.attrs.gameId == gameId)
      ensures r == if fails then Err(()) else Ok(UserItems(rows, userId, gameId))
    {
      UserItemsExactly(rows, userId, gameId);
      r := if fails then Err(()) else Ok(UserItems(rows, userId, gameId));
    }

    method ConsumeItem(id: string, quantity: int, fails: bool) returns (ok: bool)
      modifies this
      ensures ok <==> !fails && Consume(old(rows), id, quantity).Some?
      ensures rows == if ok then Consume(old(rows), id, quantity).value else old(rows)
    {
      ok := false;
      if !fails {
        var after := Consume(rows, id, quantity);
        if after.Some? {
          rows := after.value;
          ok := true;
        }
      }
    }

    method AddItemQuantity(id: string, quantity: int, fails: bool) returns (ok: bool)
      modifies this
      ensures ok <==> !fails
      ensures rows == if ok then Adjust(old(rows), id, quantity) else old(rows)
    {
      ok := !fails;
      if ok { rows := Adjust(rows, id, quantity); }
    }

    method CreateItem(item: Item, fails: bool) returns (ok: bool)
      modifies this
      ensures ok <==> !fails && Create(old(rows), item).Some?
      ensures rows == if ok then Create(old(rows), item).value else old(rows)
    {
      ok := false;
      if !fails {
        var after := Create(rows, item);
        if after.Some? {
          rows := after.value;
          ok := true;
        }
      }
    }
  }

  // ---------- Sums ----------

  lemma {:induction false} SumUpdate(s: seq<int>, i: nat, x: int)
    requires i < |s|
    ensures Sum(s[i := x]) == Sum(s) - s[i] + x
  {
    if i == 0 {
      assert s[i := x][1..] == s[1..];
    } else {
      assert s[i := x][1..] == s[1..][i - 1 := x];
      SumUpdate(s[1..], i - 1, x);
    }
  }

  // Which owners and kinds of item are being counted.
  type Selection = (string, Attrs) -> bool

  function Weight(item: Item, sel: Selection): int {
    if sel(item.userId, item.attrs) then item.quantity else 0
  }

  function Weights(rows: Rows, sel: Selection): (r: seq<int>)
    ensures |r| == |rows| && forall i :: 0 <= i < |rows| ==> r[i] == Weight(rows[i], sel)
  {
    seq(|rows|, i requires 0 <= i < |rows| => Weight(rows[i], sel))
  }

  // The quantity stored under a selection.
  function Stock(rows: Rows, sel: Selection): int {
    Sum(Weights(rows, sel))
  }

  lemma StockAdjust(rows: Rows, id: string, delta: int, sel: Selection)
    requires Position(rows, id) < |rows|
    ensures var row := rows[Position(rows, id)];
            Stock(Adjust(rows, id, delta), sel) == Stock(rows, sel) + (if sel(row.userId, row.attrs) then delta else 0)
  {
    var p := Position(rows, id);
    var after := rows[p].(quantity := rows[p].quantity + delta);
    assert Weights(Adjust(rows, id, delta), sel) == Weights(rows, sel)[p := Weight(after, sel)];
    SumUpdate(Weights(rows, sel), p, Weight(after, sel));
  }

  lemma StockCreate(rows: Rows, item: Item, sel: Selection)
    ensures Stock(rows + [item], sel) == Stock(rows, sel) + Weight(item, sel)
  {
    assert Weights(rows + [item], sel) == Weights(rows, sel) + [Weight(item, sel)];
    SumAppend(Weights(rows, sel), Weight(item, sel));
  }

  // ---------- Rows keep their identity ----------

  // later has the rows of earlier, with the same owners and attributes, and maybe more.
  ghost predicate Extends(earlier: Rows, later: Rows) {
    && |earlier| <= |later|
    && forall i :: 0 <= i < |earlier| ==>
         && later[i].itemId == earlier[i].itemId
         && later[i].userId == earlier[i].userId
         && later[i].attrs == earlier[i].attrs
  }

  lemma PositionStable(earlier: Rows, later: Rows, id: string)
    requires Extends(earlier, later) && Position(earlier, id) < |earlier|
    ensures Position(later, id) == Position(earlier, id)
  {
    assert forall i :: 0 <= i < |earlier| ==> later[i].itemId == earlier[i].itemId;
  }

  lemma MemberFound(rows: Rows, item: Item)
    requires UniqueIds(rows) && item in rows
    ensures Position(rows, item.itemId) < |rows| && rows[Position(rows, item.itemId)] == item
  {
    var i :| 0 <= i < |rows| && rows[i] == item;
    var p := Position(rows, item.itemId);
    assert p <= i;
    assert rows[p].itemId == rows[i].itemId;
  }

  lemma AdjustKeeps(rows: Rows, id: string, delta: int)
    requires UniqueIds(rows) && NonNegative(rows)
    requires forall i :: 0 <= i < |rows| && rows[i].itemId == id ==> rows[i].quantity + delta >= 0
    ensures UniqueIds(Adjust(rows, id, delta)) && NonNegative(Adjust(rows, id, delta))
    ensures Extends(rows, Adjust(rows, id, delta))
  {
  }

  lemma CreateKeeps(rows: Rows, item: Item)
    requires UniqueIds(rows) && NonNegative(rows) && item.quantity >= 0
    requires Position(rows, item.itemId) == |rows|
    ensures UniqueIds(rows + [item]) && NonNegative(rows + [item]) && Extends(rows, rows + [item])
  {
  }
}
