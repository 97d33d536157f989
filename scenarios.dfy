/** Worked scenarios of the table's behaviour on small concrete lists. */
module Scenarios {
  import opened JsArray
  import opened JsString
  import opened Users
  import opened Selection
  import opened UserTableComponent

  /** A freshly loaded row with a numeric id and only a name. */
  function Row(n: int, name: string): User {
    User(NumId(n), name, "", "", false, map[])
  }

  /** A string without the character `c` does not include it. */
  lemma Absent(s: string, c: char)
    requires forall i :: 0 <= i < |s| ==> s[i] != c
    ensures !Includes(s, [c])
  {
    forall i | 0 <= i <= |s| - 1 ensures !OccursAt(s, [c], i) {
      assert s[i..i + 1][0] == s[i];
    }
  }

  /** Bob's name includes "b" once both are folded. */
  lemma BobMatches()
    ensures Matches(Row(2, "Bob"), "b")
  {
    assert Lower("b") == "b";
    assert Lower("Bob")[0] == 'b';
    assert OccursAt(Lower("Bob"), "b", 0);
    assert Row(2, "Bob").name in SearchableValues(Row(2, "Bob"));
  }

  /** Of three rows, a filter that keeps only the middle one returns it. */
  lemma FilterMiddle(a: User, b: User, c: User, p: User -> bool)
    requires !p(a) && p(b) && !p(c)
    ensures Filter([a, b, c], p) == [b]
  {
    assert Filter([c], p) == [];
    assert [b, c][1..] == [c];
    assert Filter([b, c], p) == [b];
    assert [a, b, c][1..] == [b, c];
  }

  /** Searching "b" over Alice, Bob and Carol finds only Bob. */
  lemma SearchScenario()
    ensures SearchFilter([Row(1, "Alice"), Row(2, "Bob"), Row(3, "Carol")], "b") == [Row(2, "Bob")]
  {
    BobMatches();
    AliceMisses();
    CarolMisses();
    SearchMiddle(Row(1, "Alice"), Row(2, "Bob"), Row(3, "Carol"), "b");
  }

  /** Of three rows, a search that matches only the middle one returns it. */
  lemma SearchMiddle(a: User, b: User, c: User, term: string)
    requires !Matches(a, term) && Matches(b, term) && !Matches(c, term)
    ensures SearchFilter([a, b, c], term) == [b]
  {
    FilterMiddle(a, b, c, u => Matches(u, term));
  }

  /** A row whose only non-empty value has no letter b, in either case,
      does not match "b". */
  lemma NameWithoutB(name: string, n: int)
    requires forall i :: 0 <= i < |name| ==> name[i] != 'b' && name[i] != 'B'
    ensures !Matches(Row(n, name), "b")
  {
    assert Lower("b") == "b";
    assert Lower("") == "";
    Absent(Lower(name), 'b');
    Absent("", 'b');
  }

  /** Alice's row does not match "b". */
  lemma AliceMisses()
    ensures !Matches(Row(1, "Alice"), "b")
  {
    NameWithoutB("Alice", 1);
  }

  /** Carol's row does not match "b". */
  lemma CarolMisses()
    ensures !Matches(Row(3, "Carol"), "b")
  {
    NameWithoutB("Carol", 3);
  }

  /** Ticking 1 and then 3 selects [1, 3]. */
  lemma SelectOneThenThree()
    ensures Toggle(Toggle([], NumId(1)), NumId(3)) == [NumId(1), NumId(3)]
  {
    assert Toggle([], NumId(1)) == [NumId(1)];
  }

  /** Bulk-deleting ids 1 and 3 leaves only row 2. */
  lemma DeleteOneAndThree()
    ensures DeleteSelected([Row(1, "A"), Row(2, "B"), Row(3, "C")], [NumId(1), NumId(3)]) == [Row(2, "B")]
  {
    var p := (u: User) => u.id !in [NumId(1), NumId(3)];
    assert !p(Row(1, "A")) && p(Row(2, "B")) && !p(Row(3, "C"));
    FilterMiddle(Row(1, "A"), Row(2, "B"), Row(3, "C"), p);
  }

  /** Selecting ids 1 and 3 and bulk-deleting leaves only row 2. */
  lemma BulkDeleteScenario()
    ensures DeleteSelected([Row(1, "A"), Row(2, "B"), Row(3, "C")], Toggle(Toggle([], NumId(1)), NumId(3))) == [Row(2, "B")]
  {
    SelectOneThenThree();
    DeleteOneAndThree();
  }

  /** The same scenario driven through the component's handlers. */
  method BulkDeleteThroughHandlers() returns (t: UserTable)
    ensures t.users == [Row(2, "B")] && t.selectedRows == [] && t.currentPage == 1
  {
    t := new UserTable();
    t.Load([Member(NumId(1), "A", "", ""), Member(NumId(2), "B", "", ""), Member(NumId(3), "C", "", "")]);
    assert t.users == [Row(1, "A"), Row(2, "B"), Row(3, "C")];
    t.HandleCheckboxChange(NumId(1));
    t.HandleCheckboxChange(NumId(3));
    var deleted := t.HandleDeleteSelected();
    BulkDeleteScenario();
  }
}
