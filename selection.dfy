/** The checkbox selection: toggling one id, selecting every row, the header
    checkbox and the bulk delete of the selected rows. The selection is a
    list of ids, as in the component, not a set. */
module Selection {
  import opened JsArray
  import opened Users

  /** Toggling the checkbox of `id`: an absent id is appended, a present one
      is removed together with every copy of it. */
  function Toggle(sel: seq<Id>, id: Id): (r: seq<Id>)
    ensures id in r <==> id !in sel
    ensures forall x :: x != id ==> (x in r <==> x in sel)
    ensures id !in sel ==> r == sel + [id]
    ensures id in sel ==> multiset(r) == multiset(sel)[id := 0]
  {
    if id in sel then
      FilterMultisetAll(sel, (x: Id) => x != id);
      Filter(sel, (x: Id) => x != id)
    else
      sel + [id]
  }

  /** Removing `id` keeps the other ids in their order. */
  lemma ToggleRemoveOrder(a: seq<Id>, b: seq<Id>, id: Id)
    requires id in a
    ensures Toggle(a + b, id) == Toggle(a, id) + Filter(b, (x: Id) => x != id)
  {
    assert id in a + b;
    FilterConcat(a, b, (x: Id) => x != id);
  }

  /** Toggling never introduces a repeat. */
  lemma ToggleNoDup(sel: seq<Id>, id: Id)
    requires NoDup(sel)
    ensures NoDup(Toggle(sel, id))
  {
    if id in sel {
      FilterNoDup(sel, (x: Id) => x != id);
    }
  }

  /** Toggling an unselected id twice restores the selection exactly. */
  lemma ToggleTwiceAbsent(sel: seq<Id>, id: Id)
    requires id !in sel
    ensures Toggle(Toggle(sel, id), id) == sel
  {
    var p := (x: Id) => x != id;
    FilterConcat(sel, [id], p);
    FilterAll(sel, p);
  }

  /** Toggling a selected id twice gives the other ids in their order with
      the id moved to the end; without repeats that is the same collection
      of ids. */
  lemma ToggleTwicePresent(sel: seq<Id>, id: Id)
    requires id in sel
    ensures Toggle(Toggle(sel, id), id) == Filter(sel, (x: Id) => x != id) + [id]
    ensures NoDup(sel) ==> multiset(Toggle(Toggle(sel, id), id)) == multiset(sel)
    ensures NoDup(sel) ==> |Toggle(Toggle(sel, id), id)| == |sel| && Toggle(Toggle(sel, id), id)[|sel| - 1] == id
  {
    var once := Toggle(sel, id);
    assert once == Filter(sel, (x: Id) => x != id);
    if NoDup(sel) {
      NoDupOnce(sel, id);
      assert multiset(once) == multiset(sel)[id := 0];
      assert |once| == |sel| - 1 by {
        assert |multiset(once)| == |multiset(sel)| - 1;
      }
    }
  }

  /** A selected id that occurs once, as the last entry, comes back in the
      same place: toggling it twice restores the selection exactly. */
  lemma ToggleTwiceLast(rest: seq<Id>, id: Id)
    requires id !in rest
    ensures Toggle(Toggle(rest + [id], id), id) == rest + [id]
  {
    var p := (x: Id) => x != id;
    assert id in rest + [id];
    FilterConcat(rest, [id], p);
    FilterAll(rest, p);
    assert Filter([id], p) == [];
  }

  /** The reordering is real: selecting 1 and 2, then unticking and ticking 1
      again, leaves the selection [2, 1]. */
  lemma ToggleTwiceReorders()
    ensures Toggle(Toggle([NumId(1), NumId(2)], NumId(1)), NumId(1)) == [NumId(2), NumId(1)]
  {
    var p := (x: Id) => x != NumId(1);
    assert Filter([NumId(2)], p) == [NumId(2)];
    assert [NumId(1), NumId(2)][1..] == [NumId(2)];
  }

  /** The header checkbox reads as checked when the selection is as long as
      the list; for a consistent selection over rows with unique ids that is
      exactly when every row is selected. */
  function HeaderChecked(sel: seq<Id>, users: seq<User>): (r: bool)
    ensures UniqueIds(users) && Consistent(sel, users) ==> (r <==> forall u :: u in users ==> u.id in sel)
  {
    // Both branches are the length test `selectedRows.length === users.length`;
    // the first only brings in the lemma that proves the contract.
    if UniqueIds(users) && Consistent(sel, users) then
      HeaderCheckedIffAllSelected(sel, users);
      |sel| == |users|
    else
      |sel| == |users|
  }

  /** Every selected id belongs to a row and no id is selected twice. */
  predicate Consistent(sel: seq<Id>, users: seq<User>) {
    NoDup(sel) && forall x :: x in sel ==> x in Ids(users)
  }

  /** Toggling an id that belongs to no row breaks consistency: the stray id
      joins the selection. */
  lemma ToggleStray(sel: seq<Id>, users: seq<User>, id: Id)
    requires Consistent(sel, users) && id !in Ids(users)
    ensures !Consistent(Toggle(sel, id), users)
  {
    assert id in Toggle(sel, id);
  }

  /** For a consistent selection over rows with unique ids, the selection is
      as long as the list exactly when every row is selected. */
  lemma HeaderCheckedIffAllSelected(sel: seq<Id>, users: seq<User>)
    requires UniqueIds(users) && Consistent(sel, users)
    ensures |sel| == |users| <==> forall u :: u in users ==> u.id in sel
  {
    var ids := Ids(users);
    UniqueIdsNoDup(users);
    NoDupCard(sel);
    NoDupCard(ids);
    assert Elements(sel) <= Elements(ids);
    if |sel| == |users| {
      SubsetSameCard(Elements(sel), Elements(ids));
      forall u | u in users ensures u.id in sel {
        var i :| 0 <= i < |users| && users[i] == u;
        assert ids[i] in Elements(ids);
      }
    }
    if forall u :: u in users ==> u.id in sel {
      assert Elements(ids) <= Elements(sel) by {
        forall x | x in Elements(ids) ensures x in Elements(sel) {
          var i :| 0 <= i < |ids| && ids[i] == x;
          assert users[i] in users;
        }
      }
      assert Elements(ids) == Elements(sel);
    }
  }

  /** Selecting all, which selects the ids of the whole list, yields a
      consistent selection (given unique ids) with every row selected and
      the header checked. */
  lemma SelectAllConsistent(users: seq<User>)
    requires UniqueIds(users)
    ensures Consistent(Ids(users), users) && HeaderChecked(Ids(users), users)
    ensures forall u :: u in users ==> u.id in Ids(users)
  {
    UniqueIdsNoDup(users);
  }

  /** The bulk delete: the rows whose id is not selected, in list order. */
  function DeleteSelected(users: seq<User>, sel: seq<Id>): (r: seq<User>)
    ensures |r| <= |users|
    ensures forall u :: u in r <==> u in users && u.id !in sel
  {
    Filter(users, (u: User) => u.id !in sel)
  }

  /** The survivors of a bulk delete keep their relative order, and ids stay
      unique. */
  lemma DeleteSelectedOrder(a: seq<User>, b: seq<User>, sel: seq<Id>)
    ensures DeleteSelected(a + b, sel) == DeleteSelected(a, sel) + DeleteSelected(b, sel)
    ensures UniqueIds(a) ==> UniqueIds(DeleteSelected(a, sel))
  {
    FilterConcat(a, b, (u: User) => u.id !in sel);
    if UniqueIds(a) {
      FilterDistinctKeys(a, (u: User) => u.id !in sel, IdOf);
    }
  }

  /** A bulk delete keeps at most one row editing. */
  lemma DeleteSelectedOneEditing(users: seq<User>, sel: seq<Id>)
    requires OneEditing(users)
    ensures OneEditing(DeleteSelected(users, sel))
  {
    FilterOneEditing(users, (u: User) => u.id !in sel);
  }

  /** After either delete, selecting all never brings a deleted id back. */
  lemma DeletedIdsStayDeleted(users: seq<User>, sel: seq<Id>, id: Id)
    ensures id !in Ids(DeleteRows(users, id))
    ensures forall x :: x in sel ==> x !in Ids(DeleteSelected(users, sel))
  {
    IdsIn(DeleteRows(users, id), id);
    forall x | x in sel ensures x !in Ids(DeleteSelected(users, sel)) {
      IdsIn(DeleteSelected(users, sel), x);
    }
  }
}
