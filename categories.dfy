/**
 * The store operations behind the category endpoints of controller.js, as functions on
 * the category and transaction sequences, with what they preserve: category deletion
 * retypes the affected transactions to a fallback category, renaming cascades to
 * transactions, and no step leaves a transaction naming a missing category.
 */
module CategoryStore {
  import opened Store

  /** The position of the first category of that kind, the one a query on `type` finds. */
  function KindIndex(cats: seq<Category>, kind: string): Option<nat>
  {
    FirstIndex(cats, (c: Category) => c.kind == kind)
  }

  /** `categories.deleteOne({type: kind})`: the first category of that kind goes. */
  function RemoveKind(cats: seq<Category>, kind: string): (r: seq<Category>)
    ensures forall k :: k != kind ==> (HasKind(r, k) <==> HasKind(cats, k))
    ensures HasKind(cats, kind) ==> |r| == |cats| - 1
    ensures UniqueKinds(cats) ==> UniqueKinds(r) && !HasKind(r, kind)
    decreases |cats|
  {
    if cats == [] then []
    else
      HasKindSplit(cats);
      UniqueTail(cats);
      if cats[0].kind == kind then cats[1..]
      else
        var rest := RemoveKind(cats[1..], kind);
        var r := [cats[0]] + rest;
        assert r[1..] == rest;
        HasKindSplit(r);
        UniqueCons(cats[0], rest);
        r
  }

  /** Exactly the first entry of that kind goes, and the others keep their order. */
  lemma {:induction false} RemoveKindFirst(cats: seq<Category>, kind: string)
    ensures KindIndex(cats, kind).None? ==> RemoveKind(cats, kind) == cats
    ensures KindIndex(cats, kind).Some? ==>
      var i := KindIndex(cats, kind).value; RemoveKind(cats, kind) == cats[..i] + cats[i + 1..]
    decreases |cats|
  {
    if cats != [] && cats[0].kind != kind {
      var tail := cats[1..];
      RemoveKindFirst(tail, kind);
      PastHead(cats, kind);
      if KindIndex(tail, kind).Some? {
        DropAfterHead(cats, KindIndex(tail, kind).value);
      }
    }
  }

  /** Past a head of another kind, both the search and the deletion continue in the tail. */
  lemma PastHead(cats: seq<Category>, kind: string)
    requires cats != [] && cats[0].kind != kind
    ensures KindIndex(cats, kind) ==
      if KindIndex(cats[1..], kind).None? then None else Some(KindIndex(cats[1..], kind).value + 1)
    ensures RemoveKind(cats, kind) == [cats[0]] + RemoveKind(cats[1..], kind)
  {
  }

  /** Dropping entry `k` of the tail is dropping entry `k + 1` of the whole list. */
  lemma DropAfterHead<T>(s: seq<T>, k: nat)
    requires k + 1 < |s|
    ensures [s[0]] + (s[1..][..k] + s[1..][k + 1..]) == s[..k + 1] + s[k + 2..]
  {
    assert s[1..][k + 1..] == s[k + 2..];
    assert [s[0]] + s[1..][..k] == s[..k + 1];
  }

  /** A category list is its first category followed by the rest. */
  lemma HasKindSplit(cats: seq<Category>)
    requires cats != []
    ensures forall k :: HasKind(cats, k) <==> cats[0].kind == k || HasKind(cats[1..], k)
  {
    forall k | HasKind(cats[1..], k) ensures HasKind(cats, k) {
      var i :| 0 <= i < |cats[1..]| && cats[1..][i].kind == k;
      assert cats[i + 1].kind == k;
    }
  }

  lemma UniqueTail(cats: seq<Category>)
    requires cats != []
    ensures UniqueKinds(cats) ==> UniqueKinds(cats[1..]) && !HasKind(cats[1..], cats[0].kind)
  {
  }

  lemma UniqueCons(c: Category, rest: seq<Category>)
    ensures UniqueKinds(rest) && !HasKind(rest, c.kind) ==> UniqueKinds([c] + rest)
  {
    var r := [c] + rest;
    forall i, j | 0 <= i < j < |r| && UniqueKinds(rest) && !HasKind(rest, c.kind) ensures r[i].kind != r[j].kind {
      assert r[j] == rest[j - 1];
      if i > 0 { assert r[i] == rest[i - 1]; }
    }
  }

  /**
   * `categories.updateOne({type: from}, {$set: {type: to, color}})`: the first category of
   * kind `from` takes the new kind and colour, in place.
   */
  function Rename(cats: seq<Category>, from: string, to: string, color: string): (r: seq<Category>)
    // only the first entry of kind `from` changes, to the new kind and colour
    ensures KindIndex(cats, from).None? ==> r == cats
    ensures KindIndex(cats, from).Some? ==> r == cats[KindIndex(cats, from).value := Category(to, color)]
    ensures |r| == |cats|
    ensures HasKind(cats, from) ==> HasKind(r, to)
    ensures forall k :: k != from && k != to ==> (HasKind(r, k) <==> HasKind(cats, k))
    ensures UniqueKinds(cats) && !HasKind(cats, to) ==> UniqueKinds(r) && !HasKind(r, from)
  {
    match KindIndex(cats, from)
    case None => cats
    case Some(i) =>
      RenameAtKinds(cats, i, Category(to, color));
      cats[i := Category(to, color)]
  }

  /** Overwriting one category keeps every kind other than the old and the new one. */
  lemma RenameAtKinds(cats: seq<Category>, i: nat, c: Category)
    requires i < |cats|
    ensures var r := cats[i := c];
      HasKind(r, c.kind) &&
      (forall k :: k != cats[i].kind && k != c.kind ==> (HasKind(r, k) <==> HasKind(cats, k))) &&
      (UniqueKinds(cats) && !HasKind(cats, c.kind) ==> UniqueKinds(r) && !HasKind(r, cats[i].kind))
  {
    var r := cats[i := c];
    assert r[i] == c;
    forall k | k != cats[i].kind && k != c.kind && HasKind(cats, k) ensures HasKind(r, k) {
      var j :| 0 <= j < |cats| && cats[j].kind == k;
      assert r[j] == cats[j];
    }
  }

  /** `transactions.updateMany({type: from}, {$set: {type: to}})`. */
  function Retype(txs: seq<Transaction>, from: string, to: string): (r: seq<Transaction>)
    ensures |r| == |txs|
    ensures forall i :: 0 <= i < |txs| ==>
      r[i] == if txs[i].category == from then txs[i].(category := to) else txs[i]
    decreases |txs|
  {
    if txs == [] then []
    else [if txs[0].category == from then txs[0].(category := to) else txs[0]] + Retype(txs[1..], from, to)
  }

  /** The `matchedCount` of that update: how many transactions have category `kind`. */
  function CountKind(txs: seq<Transaction>, kind: string): nat
    decreases |txs|
  {
    if txs == [] then 0 else (if txs[0].category == kind then 1 else 0) + CountKind(txs[1..], kind)
  }

  /** How many transactions have a category among `kinds`. */
  function CountIn(txs: seq<Transaction>, kinds: seq<string>): nat
    decreases |txs|
  {
    if txs == [] then 0 else (if txs[0].category in kinds then 1 else 0) + CountIn(txs[1..], kinds)
  }

  /** `kinds` with every occurrence of `x` filtered out. */
  function Without(kinds: seq<string>, x: string): (r: seq<string>)
    ensures forall k :: k in r <==> k in kinds && k != x
    // every other entry is kept as often as it was listed
    ensures multiset(r) == multiset(kinds)[x := 0]
    ensures |r| <= |kinds|
  {
    if kinds == [] then []
    else
      assert kinds == [kinds[0]] + kinds[1..];
      (if kinds[0] == x then [] else [kinds[0]]) + Without(kinds[1..], x)
  }

  /** The filter keeps the order of the list: filtering a concatenation filters each part. */
  lemma {:induction false} WithoutAppend(a: seq<string>, b: seq<string>, x: string)
    ensures Without(a + b, x) == Without(a, x) + Without(b, x)
    decreases |a|
  {
    if a == [] {
      assert a + b == b;
    } else {
      assert (a + b)[0] == a[0] && (a + b)[1..] == a[1..] + b;
      WithoutAppend(a[1..], b, x);
    }
  }

  /**
   * The oldest category whose kind is not in `kinds`:
   * `categories.findOne({type: {$nin: kinds}}).sort({_id: 1})`.
   */
  function OldestOutside(cats: seq<Category>, kinds: seq<string>): (r: Option<string>)
    ensures r.None? <==> forall i :: 0 <= i < |cats| ==> cats[i].kind in kinds
    ensures r.Some? ==>
      exists i :: 0 <= i < |cats| && cats[i].kind == r.value && r.value !in kinds &&
        forall j :: 0 <= j < i ==> cats[j].kind in kinds
  {
    match FirstIndex(cats, (c: Category) => c.kind !in kinds)
    case None => None
    case Some(i) => Some(cats[i].kind)
  }

  /** Which kinds the deletion loop processes, and the kind that receives their transactions. */
  datatype Plan = Plan(kinds: seq<string>, fallback: Option<string>)

  /**
   * Choosing the fallback. When the list is as long as the store, the oldest category is
   * taken out of the list and receives the transactions; otherwise the list stays as it is
   * and the oldest category not in it receives them. Either way the fallback is the oldest
   * category that is not deleted, and none exists only when every category is listed.
   */
  function PlanDeletion(cats: seq<Category>, types: seq<string>): (p: Plan)
    requires |cats| >= 1
    ensures p.fallback == OldestOutside(cats, p.kinds)
    ensures forall k :: k in p.kinds ==> k in types
    ensures forall k :: k in types ==> k in p.kinds || (|types| == |cats| && k == cats[0].kind)
    ensures |types| == |cats| ==> p.fallback == Some(cats[0].kind)
  {
    if |types| == |cats| then
      var kinds := Without(types, cats[0].kind);
      assert FirstIndex(cats, (c: Category) => c.kind !in kinds) == Some(0);
      Plan(kinds, Some(cats[0].kind))
    else if cats[0].kind in types then Plan(types, OldestOutside(cats, types))
    else
      assert FirstIndex(cats, (c: Category) => c.kind !in types) == Some(0);
      Plan(types, Some(cats[0].kind))
  }

  const EMPTY_CATEGORY := "Categories cannot be empty strings"
  const NO_CATEGORY := "The category does not exist"
  /** What reading `.type` of a null fallback throws. */
  const NULL_FALLBACK := "Cannot read properties of null (reading 'type')"

  /** The state the deletion loop leaves, the transactions it counted, and the error it stopped on. */
  datatype Sweep = Sweep(categories: seq<Category>, transactions: seq<Transaction>, count: nat,
                         error: Option<string>)

  /**
   * The deletion loop (lines 244-271), processing `kinds` in order from state `cats`, `txs`
   * with `count` transactions retyped so far. It stops at the first empty or missing kind,
   * keeping what earlier iterations did; with no fallback the category is deleted and the
   * update then fails.
   */
  function DeleteSweep(cats: seq<Category>, txs: seq<Transaction>, kinds: seq<string>,
                       fallback: Option<string>, count: nat): Sweep
    decreases |kinds|
  {
    if kinds == [] then Sweep(cats, txs, count, None)
    else if kinds[0] == "" then Sweep(cats, txs, count, Some(EMPTY_CATEGORY))
    else if !HasKind(cats, kinds[0]) then Sweep(cats, txs, count, Some(NO_CATEGORY))
    else match fallback
      case None => Sweep(RemoveKind(cats, kinds[0]), txs, count, Some(NULL_FALLBACK))
      case Some(f) =>
        DeleteSweep(RemoveKind(cats, kinds[0]), Retype(txs, kinds[0], f), kinds[1..], fallback,
                    count + CountKind(txs, kinds[0]))
  }

  lemma {:induction false} CountAfterRetype(txs: seq<Transaction>, t: string, f: string, rest: seq<string>)
    requires f !in rest
    ensures CountKind(txs, t) + CountIn(Retype(txs, t, f), rest) == CountIn(txs, [t] + rest)
    decreases |txs|
  {
    if txs != [] {
      CountAfterRetype(txs[1..], t, f, rest);
      assert Retype(txs, t, f)[1..] == Retype(txs[1..], t, f);
    }
  }

  lemma {:induction false} CountNone(txs: seq<Transaction>)
    ensures CountIn(txs, []) == 0
    decreases |txs|
  {
    if txs != [] {
      CountNone(txs[1..]);
    }
  }

  /**
   * A completed sweep with fallback `f` (not itself listed) moves exactly the transactions
   * of the listed kinds to `f`, leaves every other transaction as it was, and counts the
   * moved ones.
   */
  lemma {:induction false} SweepRetypes(cats: seq<Category>, txs: seq<Transaction>, kinds: seq<string>,
                                        f: string, count: nat)
    requires f !in kinds
    ensures var s := DeleteSweep(cats, txs, kinds, Some(f), count);
      s.error.None? ==>
        |s.transactions| == |txs| &&
        (forall i :: 0 <= i < |txs| ==>
          s.transactions[i] == if txs[i].category in kinds then txs[i].(category := f) else txs[i]) &&
        s.count == count + CountIn(txs, kinds)
    decreases |kinds|
  {
    if kinds == [] {
      CountNone(txs);
    } else if kinds[0] != "" && HasKind(cats, kinds[0]) {
      var t, rest := kinds[0], kinds[1..];
      assert kinds == [t] + rest;
      var cats', txs', count' := RemoveKind(cats, t), Retype(txs, t, f), count + CountKind(txs, t);
      var s := DeleteSweep(cats', txs', rest, Some(f), count');
      assert DeleteSweep(cats, txs, kinds, Some(f), count) == s;
      SweepRetypes(cats', txs', rest, f, count');
      CountAfterRetype(txs, t, f, rest);
      if s.error.None? {
        forall i | 0 <= i < |txs|
          ensures s.transactions[i] == if txs[i].category in kinds then txs[i].(category := f) else txs[i]
        {
          assert s.transactions[i] == if txs'[i].category in rest then txs'[i].(category := f) else txs'[i];
          if txs[i].category != t {
            assert txs'[i] == txs[i];
            assert txs[i].category in kinds <==> txs[i].category in rest;
          }
        }
      }
    }
  }

  /**
   * Referential integrity survives every prefix of the sweep, including one cut short by an
   * error: a transaction only ever moves to the fallback, which is never deleted.
   */
  lemma {:induction false} SweepKeepsIntegrity(cats: seq<Category>, txs: seq<Transaction>,
                                               kinds: seq<string>, f: string, count: nat)
    requires f !in kinds && HasKind(cats, f)
    requires Integrity(cats, txs)
    ensures var s := DeleteSweep(cats, txs, kinds, Some(f), count);
      Integrity(s.categories, s.transactions) && HasKind(s.categories, f)
    decreases |kinds|
  {
    if kinds == [] || kinds[0] == "" || !HasKind(cats, kinds[0]) {
      var s := DeleteSweep(cats, txs, kinds, Some(f), count);
      assert s.categories == cats && s.transactions == txs;
    } else {
      var t := kinds[0];
      var cats', txs', count' := RemoveKind(cats, t), Retype(txs, t, f), count + CountKind(txs, t);
      assert DeleteSweep(cats, txs, kinds, Some(f), count) == DeleteSweep(cats', txs', kinds[1..], Some(f), count');
      StepKeepsIntegrity(cats, txs, t, f);
      assert f !in kinds[1..];
      SweepKeepsIntegrity(cats', txs', kinds[1..], f, count');
    }
  }

  /** One iteration: deleting `t` and moving its transactions to `f` keeps every reference valid. */
  lemma StepKeepsIntegrity(cats: seq<Category>, txs: seq<Transaction>, t: string, f: string)
    requires t != f && HasKind(cats, f) && Integrity(cats, txs)
    ensures Integrity(RemoveKind(cats, t), Retype(txs, t, f)) && HasKind(RemoveKind(cats, t), f)
  {
    var cats', txs' := RemoveKind(cats, t), Retype(txs, t, f);
    forall i | 0 <= i < |txs'| ensures HasKind(cats', txs'[i].category) {
      assert HasKind(cats, txs[i].category);
    }
  }

  /** With unique kinds, a completed sweep removes exactly the listed categories. */
  lemma {:induction false} SweepRemovesListed(cats: seq<Category>, txs: seq<Transaction>,
                                              kinds: seq<string>, fallback: Option<string>, count: nat)
    requires UniqueKinds(cats)
    ensures var s := DeleteSweep(cats, txs, kinds, fallback, count);
      UniqueKinds(s.categories) &&
      (s.error.None? ==> forall k :: HasKind(s.categories, k) <==> HasKind(cats, k) && k !in kinds)
    decreases |kinds|
  {
    if kinds != [] && kinds[0] != "" && HasKind(cats, kinds[0]) && fallback.Some? {
      var t := kinds[0];
      SweepRemovesListed(RemoveKind(cats, t), Retype(txs, t, fallback.value), kinds[1..], fallback,
                         count + CountKind(txs, t));
      assert kinds == [t] + kinds[1..];
    }
  }

  /** A list of distinct, existing, non-empty kinds never stops the sweep early. */
  lemma {:induction false} SweepCompletes(cats: seq<Category>, txs: seq<Transaction>, kinds: seq<string>,
                                          f: string, count: nat)
    requires forall i :: 0 <= i < |kinds| ==> kinds[i] != "" && HasKind(cats, kinds[i])
    requires forall i, j :: 0 <= i < j < |kinds| ==> kinds[i] != kinds[j]
    ensures DeleteSweep(cats, txs, kinds, Some(f), count).error.None?
    decreases |kinds|
  {
    if kinds != [] {
      var t := kinds[0];
      var cats' := RemoveKind(cats, t);
      forall i | 0 <= i < |kinds[1..]| ensures kinds[1..][i] != "" && HasKind(cats', kinds[1..][i]) {
        assert kinds[1..][i] == kinds[i + 1] != t;
      }
      SweepCompletes(cats', Retype(txs, t, f), kinds[1..], f, count + CountKind(txs, t));
    }
  }

  /** Distinct elements stay distinct when one value is filtered out. */
  lemma {:induction false} WithoutDistinct(kinds: seq<string>, x: string)
    requires forall i, j :: 0 <= i < j < |kinds| ==> kinds[i] != kinds[j]
    ensures forall i, j :: 0 <= i < j < |Without(kinds, x)| ==> Without(kinds, x)[i] != Without(kinds, x)[j]
    decreases |kinds|
  {
    if kinds != [] {
      WithoutDistinct(kinds[1..], x);
      assert kinds[0] !in kinds[1..] by {
        forall j | 0 <= j < |kinds[1..]| ensures kinds[1..][j] != kinds[0] {
          assert kinds[1..][j] == kinds[j + 1];
        }
      }
      var r, rest := Without(kinds, x), Without(kinds[1..], x);
      if kinds[0] == x {
        assert r == rest;
      } else {
        assert r == [kinds[0]] + rest;
        assert kinds[0] !in rest;
        forall i, j | 0 <= i < j < |r| ensures r[i] != r[j] {
          assert r[j] == rest[j - 1] && r[j] in rest;
          if i > 0 {
            assert r[i] == rest[i - 1];
          } else {
            assert r[i] == kinds[0];
          }
        }
      }
    }
  }

  /**
   * Deleting every category at once, listed in any order, keeps the oldest: it alone remains,
   * every transaction ends up in it, the transactions already there are untouched, and the
   * count is the number of transactions that were elsewhere.
   */
  lemma DeleteAllKeepsOldest(cats: seq<Category>, txs: seq<Transaction>, types: seq<string>)
    requires |cats| >= 2 && UniqueKinds(cats) && Integrity(cats, txs)
    requires forall i :: 0 <= i < |cats| ==> cats[i].kind != ""
    // the list is a permutation of the category kinds
    requires |types| == |cats| && forall i :: 0 <= i < |cats| ==> cats[i].kind in types
    requires forall i :: 0 <= i < |types| ==> HasKind(cats, types[i])
    requires forall i, j :: 0 <= i < j < |types| ==> types[i] != types[j]
    ensures var p := PlanDeletion(cats, types);
      var s := DeleteSweep(cats, txs, p.kinds, p.fallback, 0);
      var oldest := cats[0].kind;
      s.error.None? &&
      (forall k :: HasKind(s.categories, k) <==> k == oldest) &&
      |s.transactions| == |txs| &&
      (forall i :: 0 <= i < |txs| ==> s.transactions[i].category == oldest) &&
      (forall i :: 0 <= i < |txs| && txs[i].category == oldest ==> s.transactions[i] == txs[i]) &&
      s.count == CountIn(txs, p.kinds)
  {
    var oldest := cats[0].kind;
    var p := PlanDeletion(cats, types);
    assert p.kinds == Without(types, oldest) && p.fallback == Some(oldest);
    WithoutDistinct(types, oldest);
    forall i | 0 <= i < |p.kinds| ensures p.kinds[i] != "" && HasKind(cats, p.kinds[i]) {
      assert p.kinds[i] in types;
    }
    SweepCompletes(cats, txs, p.kinds, oldest, 0);
    SweepRetypes(cats, txs, p.kinds, oldest, 0);
    SweepRemovesListed(cats, txs, p.kinds, p.fallback, 0);
    var s := DeleteSweep(cats, txs, p.kinds, p.fallback, 0);
    forall k ensures HasKind(s.categories, k) <==> k == oldest {
      if HasKind(cats, k) && k != oldest {
        var i :| 0 <= i < |cats| && cats[i].kind == k;
        assert k in types;
      }
      assert HasKind(cats, oldest) by { assert cats[0].kind == oldest; }
    }
    forall i | 0 <= i < |txs| ensures s.transactions[i].category == oldest {
      var c := txs[i].category;
      assert HasKind(cats, c);
      var j :| 0 <= j < |cats| && cats[j].kind == c;
      assert c in types;
    }
  }

  /**
   * Renaming an existing category and cascading the new kind to its transactions keeps every
   * transaction pointing at an existing category.
   */
  lemma RenameKeepsIntegrity(cats: seq<Category>, txs: seq<Transaction>, from: string, to: string,
                             color: string)
    requires HasKind(cats, from) && Integrity(cats, txs)
    ensures Integrity(Rename(cats, from, to, color), Retype(txs, from, to))
  {
    var cats', txs' := Rename(cats, from, to, color), Retype(txs, from, to);
    forall i | 0 <= i < |txs'| ensures HasKind(cats', txs'[i].category) {
      assert HasKind(cats, txs[i].category);
    }
  }

  /** Retyping moves every transaction of `from` to `to`, and none stays behind. */
  lemma {:induction false} RetypeMovesCount(txs: seq<Transaction>, from: string, to: string)
    requires from != to
    ensures CountKind(Retype(txs, from, to), to) == CountKind(txs, from) + CountKind(txs, to)
    ensures CountKind(Retype(txs, from, to), from) == 0
    decreases |txs|
  {
    if txs != [] {
      RetypeMovesCount(txs[1..], from, to);
      assert Retype(txs, from, to)[1..] == Retype(txs[1..], from, to);
    }
  }

  /** Under referential integrity, a kind no category has has no transactions either. */
  lemma {:induction false} MissingKindHasNoTransactions(cats: seq<Category>, txs: seq<Transaction>, kind: string)
    requires Integrity(cats, txs) && !HasKind(cats, kind)
    ensures CountKind(txs, kind) == 0
    decreases |txs|
  {
    if txs != [] {
      assert HasKind(cats, txs[0].category);
      assert Integrity(cats, txs[1..]) by {
        forall i | 0 <= i < |txs[1..]| ensures HasKind(cats, txs[1..][i].category) {
          assert txs[1..][i] == txs[i + 1];
        }
      }
      MissingKindHasNoTransactions(cats, txs[1..], kind);
    }
  }

  /**
   * The count updateCategory reports is the number of transactions of the renamed category:
   * afterwards exactly that many carry the new kind and none the old one.
   */
  lemma RenameCount(cats: seq<Category>, txs: seq<Transaction>, from: string, to: string)
    requires Integrity(cats, txs) && !HasKind(cats, to) && from != to
    ensures CountKind(Retype(txs, from, to), to) == CountKind(txs, from)
    ensures CountKind(Retype(txs, from, to), from) == 0
  {
    RetypeMovesCount(txs, from, to);
    MissingKindHasNoTransactions(cats, txs, to);
  }

  /**
   * Deleting every category but with an extra unknown kind in the list leaves no fallback:
   * the first listed category is deleted before the null fallback is dereferenced, and its
   * transactions are left pointing at a category that no longer exists.
   */
  lemma NullFallbackDangles()
    ensures var cats := [Category("A", "red"), Category("B", "blue")];
      var txs := [Transaction("t1", "u", 1.0, "A", "2023-01-01")];
      var p := PlanDeletion(cats, ["A", "B", "C"]);
      var s := DeleteSweep(cats, txs, p.kinds, p.fallback, 0);
      Integrity(cats, txs) && p.fallback == None &&
      s.error == Some(NULL_FALLBACK) && !Integrity(s.categories, s.transactions)
  {
    var cats := [Category("A", "red"), Category("B", "blue")];
    var txs := [Transaction("t1", "u", 1.0, "A", "2023-01-01")];
    var types := ["A", "B", "C"];
    assert types[0] == "A" && types[1] == "B";
    assert forall i :: 0 <= i < |cats| ==> cats[i].kind in types;
    var p := PlanDeletion(cats, types);
    assert p == Plan(types, None);
    assert HasKind(cats, "A") by { assert cats[0].kind == "A"; }
    assert RemoveKind(cats, "A") == [Category("B", "blue")];
    assert !HasKind([Category("B", "blue")], "A");
    var sw := DeleteSweep(cats, txs, p.kinds, p.fallback, 0);
    assert sw == Sweep([Category("B", "blue")], txs, 0, Some(NULL_FALLBACK));
    assert !HasKind(sw.categories, sw.transactions[0].category);
  }
}
