/**
 * The store operations behind the transaction endpoints of controller.js: deletion by id,
 * one `deleteOne` at a time, and what it amounts to when ids are unique.
 */
module TransactionStore {
  import opened Store

  /** No transaction in `txs` carries `id`. */
  ghost predicate NoId(txs: seq<Transaction>, id: Id)
  {
    forall t :: t in txs ==> t.id != id
  }

  /** Transaction ids are unique, as the store's generated `_id`s are. */
  ghost predicate UniqueIds(txs: seq<Transaction>)
    decreases |txs|
  {
    txs == [] || (NoId(txs[1..], txs[0].id) && UniqueIds(txs[1..]))
  }

  /** `transactions.deleteOne({_id: id})`: the first transaction with that id goes. */
  function RemoveId(txs: seq<Transaction>, id: Id): (r: seq<Transaction>)
    ensures forall t :: t in r ==> t in txs
    ensures TransactionById(txs, id).Some? ==> |r| == |txs| - 1
    ensures TransactionById(txs, id).None? ==> r == txs
    decreases |txs|
  {
    if txs == [] then []
    else if txs[0].id == id then txs[1..]
    else
      var rest := RemoveId(txs[1..], id);
      assert TransactionById(txs, id) == (match TransactionById(txs[1..], id)
                                          case None => None
                                          case Some(k) => Some(k + 1));
      [txs[0]] + rest
  }

  /** Every listed id deleted in turn, as the deletion loop of deleteTransactions does. */
  function RemoveIds(txs: seq<Transaction>, ids: seq<Id>): (r: seq<Transaction>)
    ensures forall t :: t in r ==> t in txs
    decreases |ids|
  {
    if ids == [] then txs else RemoveIds(RemoveId(txs, ids[0]), ids[1..])
  }

  /** The reference definition: the transactions whose id is not listed, in their order. */
  function Drop(txs: seq<Transaction>, ids: seq<Id>): (r: seq<Transaction>)
    ensures forall t :: t in r <==> t in txs && t.id !in ids
    decreases |txs|
  {
    if txs == [] then []
    else
      var rest := Drop(txs[1..], ids);
      assert forall t :: t in txs <==> t == txs[0] || t in txs[1..];
      (if txs[0].id in ids then [] else [txs[0]]) + rest
  }

  lemma {:induction false} DropNothing(txs: seq<Transaction>, ids: seq<Id>)
    requires forall t :: t in txs ==> t.id !in ids
    ensures Drop(txs, ids) == txs
    decreases |txs|
  {
    if txs != [] {
      assert txs[0] in txs;
      assert forall t :: t in txs[1..] ==> t in txs;
      DropNothing(txs[1..], ids);
      assert txs == [txs[0]] + txs[1..];
    }
  }

  /** With unique ids, one `deleteOne` is the filter on that id. */
  lemma {:induction false} RemoveIdIsDrop(txs: seq<Transaction>, id: Id)
    requires UniqueIds(txs)
    ensures RemoveId(txs, id) == Drop(txs, [id])
    decreases |txs|
  {
    if txs != [] {
      if txs[0].id == id {
        DropNothing(txs[1..], [id]);
      } else {
        RemoveIdIsDrop(txs[1..], id);
      }
    }
  }

  lemma {:induction false} DropTwice(txs: seq<Transaction>, a: seq<Id>, b: seq<Id>)
    ensures Drop(Drop(txs, a), b) == Drop(txs, a + b)
    decreases |txs|
  {
    if txs != [] {
      DropTwice(txs[1..], a, b);
      var d := Drop(txs, a);
      assert txs[0].id in a + b <==> txs[0].id in a || txs[0].id in b;
      if txs[0].id in a {
        assert d == Drop(txs[1..], a);
      } else {
        assert d == [txs[0]] + Drop(txs[1..], a);
        assert d[0] == txs[0] && d[1..] == Drop(txs[1..], a);
      }
    }
  }

  lemma {:induction false} DropKeepsUnique(txs: seq<Transaction>, ids: seq<Id>)
    requires UniqueIds(txs)
    ensures UniqueIds(Drop(txs, ids))
    decreases |txs|
  {
    if txs != [] {
      assert UniqueIds(txs[1..]) && NoId(txs[1..], txs[0].id);
      DropKeepsUnique(txs[1..], ids);
      var d, rest := Drop(txs, ids), Drop(txs[1..], ids);
      if txs[0].id in ids {
        assert d == rest;
      } else {
        assert d == [txs[0]] + rest;
        assert d[0] == txs[0] && d[1..] == rest;
        assert NoId(rest, txs[0].id) by {
          forall u | u in rest ensures u.id != txs[0].id {
            assert u in txs[1..];
          }
        }
      }
    }
  }

  /**
   * With unique ids, deleting the listed ids one by one leaves exactly the unlisted
   * transactions, in their order; a repeated id deletes nothing more.
   */
  lemma {:induction false} RemoveIdsIsDrop(txs: seq<Transaction>, ids: seq<Id>)
    requires UniqueIds(txs)
    ensures RemoveIds(txs, ids) == Drop(txs, ids)
    decreases |ids|
  {
    if ids == [] {
      DropNothing(txs, ids);
    } else {
      RemoveIdIsDrop(txs, ids[0]);
      DropKeepsUnique(txs, [ids[0]]);
      RemoveIdsIsDrop(Drop(txs, [ids[0]]), ids[1..]);
      DropTwice(txs, [ids[0]], ids[1..]);
      assert [ids[0]] + ids[1..] == ids;
    }
  }

  /** A transaction with a fresh id keeps the ids unique. */
  lemma {:induction false} AppendFreshKeepsUnique(txs: seq<Transaction>, t: Transaction)
    requires UniqueIds(txs) && NoId(txs, t.id)
    ensures UniqueIds(txs + [t])
    decreases |txs|
  {
    if txs != [] {
      assert (txs + [t])[1..] == txs[1..] + [t];
      assert forall u :: u in txs[1..] ==> u in txs;
      AppendFreshKeepsUnique(txs[1..], t);
      assert txs[0] in txs;
    }
  }
}
