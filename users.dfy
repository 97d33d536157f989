/** The rows of the user table and the pure transformations the component's
    handlers apply to the whole `users` list: the search filter, entering edit
    mode, buffering typed values, saving and deleting a single row. */
module Users {
  import opened JsArray
  import opened JsString

  /** A user id as the feed delivers it. JSON gives a string or a number, and
      ids are compared with `===`, so `StrId("1")` and `NumId(1)` differ. */
  datatype Id = StrId(s: string) | NumId(n: int)

  /** The three columns a row lets you edit. */
  datatype Field = Name | Email | Role

  /** One record of the feed, before the component annotates it. */
  datatype Member = Member(id: Id, name: string, email: string, role: string)

  /** One element of `users`: a record plus the editing flag and the buffer
      of values typed into the row's inputs but not yet saved. */
  datatype User = User(id: Id, name: string, email: string, role: string,
                       isEditing: bool, editedFields: map<Field, string>)

  function IdOf(u: User): Id {
    u.id
  }

  /** The committed value of a column. */
  function Value(u: User, f: Field): string {
    match f
    case Name => u.name
    case Email => u.email
    case Role => u.role
  }

  /** Every id occurs at most once, as the feed promises. */
  predicate UniqueIds(users: seq<User>) {
    DistinctKeys(users, IdOf)
  }

  /** At most one row is in edit mode. */
  predicate OneEditing(users: seq<User>) {
    forall i, j :: 0 <= i < j < |users| ==> !(users[i].isEditing && users[j].isEditing)
  }

  /** A list whose editing flags are those of another list or cleared keeps
      at most one row editing. */
  lemma FlagsClearedOneEditing(a: seq<User>, b: seq<User>)
    requires |a| == |b| && forall i :: 0 <= i < |b| && b[i].isEditing ==> a[i].isEditing
    requires OneEditing(a)
    ensures OneEditing(b)
  {
  }

  /** The ids of the rows, in list order. */
  function Ids(users: seq<User>): (r: seq<Id>)
    ensures |r| == |users|
    ensures forall i :: 0 <= i < |users| ==> r[i] == users[i].id
  {
    Map(users, IdOf)
  }

  lemma IdsIn(users: seq<User>, x: Id)
    ensures x in Ids(users) <==> exists u :: u in users && u.id == x
  {
    if x in Ids(users) {
      var i :| 0 <= i < |users| && Ids(users)[i] == x;
      assert users[i] in users;
    }
  }

  /** Unique ids means the list of ids has no repeats. */
  lemma UniqueIdsNoDup(users: seq<User>)
    requires UniqueIds(users)
    ensures NoDup(Ids(users))
  {
    var ids := Ids(users);
    forall i, j | 0 <= i < j < |ids| ensures ids[i] != ids[j] {
      assert IdOf(users[i]) != IdOf(users[j]);
    }
  }

  /** The freshly loaded list: every record becomes a row that is not being
      edited and has an empty buffer. */
  function Annotate(data: seq<Member>): (r: seq<User>)
    ensures |r| == |data|
    ensures forall i :: 0 <= i < |r| ==> !r[i].isEditing && r[i].editedFields == map[]
    ensures forall i :: 0 <= i < |r| ==>
              r[i].id == data[i].id && r[i].name == data[i].name && r[i].email == data[i].email && r[i].role == data[i].role
  {
    Map(data, (m: Member) => User(m.id, m.name, m.email, m.role, false, map[]))
  }

  /** A freshly loaded list has no row in edit mode. */
  lemma AnnotateOneEditing(data: seq<Member>)
    ensures OneEditing(Annotate(data))
    ensures forall i :: 0 <= i < |data| ==> !Annotate(data)[i].isEditing
  {
  }

  // ---------------------------------------------------------------- search

  /** The values of a row that are strings: the id when it is a string and
      the three text columns. The editing flag (a boolean) and the buffer
      (an object) are skipped, and so the search never sees unsaved input. */
  function SearchableValues(u: User): (r: seq<string>)
    ensures u.name in r && u.email in r && u.role in r
    ensures u.id.StrId? <==> |r| == 4
    ensures u.id.StrId? ==> u.id.s in r
    ensures forall v :: v in r <==> v == u.name || v == u.email || v == u.role || (u.id.StrId? && v == u.id.s)
  {
    (if u.id.StrId? then [u.id.s] else []) + [u.name, u.email, u.role]
  }

  /** A row matches when one of its string values includes the term, both
      folded to lower case. */
  function Matches(u: User, term: string): (r: bool)
    ensures r <==> Includes(Lower(u.name), Lower(term)) || Includes(Lower(u.email), Lower(term))
                   || Includes(Lower(u.role), Lower(term)) || (u.id.StrId? && Includes(Lower(u.id.s), Lower(term)))
  {
    assert u.name in SearchableValues(u) && u.email in SearchableValues(u) && u.role in SearchableValues(u);
    exists v | v in SearchableValues(u) :: Includes(Lower(v), Lower(term))
  }

  /** The rows that match the search term, in list order. */
  function SearchFilter(users: seq<User>, term: string): (r: seq<User>)
    ensures |r| <= |users|
    ensures forall u :: u in r ==> u in users
    ensures forall u :: u in r ==> exists v :: v in SearchableValues(u) && Includes(Lower(v), Lower(term))
    ensures forall u :: u in users && (exists v :: v in SearchableValues(u) && Includes(Lower(v), Lower(term))) ==> u in r
  {
    Filter(users, u => Matches(u, term))
  }

  /** The order of the rows survives the search: searching a concatenation
      is concatenating the searches. */
  lemma SearchFilterConcat(a: seq<User>, b: seq<User>, term: string)
    ensures SearchFilter(a + b, term) == SearchFilter(a, term) + SearchFilter(b, term)
  {
    FilterConcat(a, b, u => Matches(u, term));
  }

  /** An empty search box keeps every row. */
  lemma SearchEmptyTermKeepsAll(users: seq<User>)
    ensures SearchFilter(users, "") == users
  {
    forall u | u in users ensures Matches(u, "") {
      IncludesEmpty(Lower(u.name));
      assert u.name in SearchableValues(u);
    }
    FilterAll(users, u => Matches(u, ""));
  }

  /** The search is case-insensitive: two terms that fold to the same string
      select the same rows. */
  lemma SearchCaseInsensitive(users: seq<User>, t1: string, t2: string)
    requires Lower(t1) == Lower(t2)
    ensures SearchFilter(users, t1) == SearchFilter(users, t2)
  {
    FilterAgree(users, u => Matches(u, t1), u => Matches(u, t2));
  }

  /** In particular, the term and its lower-case form select the same rows. */
  lemma SearchLowerTerm(users: seq<User>, term: string)
    ensures SearchFilter(users, Lower(term)) == SearchFilter(users, term)
  {
    LowerIdempotent(term);
    SearchCaseInsensitive(users, Lower(term), term);
  }

  // ---------------------------------------------------------------- editing

  /** Entering edit mode on `id`: rows with that id start editing, all other
      rows stop; nothing else about any row changes. */
  function EditRows(users: seq<User>, id: Id): (r: seq<User>)
    ensures |r| == |users|
    ensures forall i :: 0 <= i < |r| ==> (r[i].isEditing <==> users[i].id == id)
    ensures forall i :: 0 <= i < |r| ==> r[i].(isEditing := false) == users[i].(isEditing := false)
  {
    Map(users, (u: User) => u.(isEditing := u.id == id))
  }

  /** With unique ids, at most one row is in edit mode after an edit, and
      exactly one when the id is present. */
  lemma EditExclusive(users: seq<User>, id: Id)
    requires UniqueIds(users)
    ensures forall i, j ::
              0 <= i < |users| && 0 <= j < |users| && EditRows(users, id)[i].isEditing && EditRows(users, id)[j].isEditing
              ==> i == j
    ensures (exists i :: 0 <= i < |users| && EditRows(users, id)[i].isEditing)
              <==> id in Ids(users)
  {
    var r := EditRows(users, id);
    forall i, j | 0 <= i < |users| && 0 <= j < |users| && r[i].isEditing && r[j].isEditing
      ensures i == j
    {
      assert IdOf(users[i]) == IdOf(users[j]);
    }
    if id in Ids(users) {
      var i :| 0 <= i < |users| && Ids(users)[i] == id;
      assert r[i].isEditing;
    }
  }

  /** With unique ids, entering edit mode leaves at most one row editing,
      whatever the rows were doing before. */
  lemma EditOneEditing(users: seq<User>, id: Id)
    requires UniqueIds(users)
    ensures OneEditing(EditRows(users, id))
  {
    EditExclusive(users, id);
  }

  /** Editing row A and then row B leaves A viewing and B editing. */
  lemma EditThenEdit(users: seq<User>, a: Id, b: Id)
    requires a != b
    ensures forall i :: 0 <= i < |users| && users[i].id == a ==> !EditRows(EditRows(users, a), b)[i].isEditing
    ensures forall i :: 0 <= i < |users| && users[i].id == b ==> EditRows(EditRows(users, a), b)[i].isEditing
    ensures EditRows(EditRows(users, a), b) == EditRows(users, b)
  {
    var r := EditRows(EditRows(users, a), b);
    var s := EditRows(users, b);
    assert |r| == |s|;
    forall i | 0 <= i < |r| ensures r[i] == s[i] {
      assert r[i].(isEditing := false) == users[i].(isEditing := false);
    }
  }

  /** Typing `v` into column `f` of the rows with `id`: only their buffer
      entry for `f` changes, and it becomes `v`. */
  function InputRows(users: seq<User>, id: Id, f: Field, v: string): (r: seq<User>)
    ensures |r| == |users|
    ensures forall i :: 0 <= i < |r| && users[i].id != id ==> r[i] == users[i]
    ensures forall i :: 0 <= i < |r| && users[i].id == id ==>
              r[i] == users[i].(editedFields := users[i].editedFields[f := v])
  {
    Map(users, (u: User) => if u.id == id then u.(editedFields := u.editedFields[f := v]) else u)
  }

  /** Typing never touches committed data, the editing flag or the ids. */
  lemma InputKeepsCommitted(users: seq<User>, id: Id, f: Field, v: string)
    ensures Ids(InputRows(users, id, f, v)) == Ids(users)
    ensures forall i, g :: 0 <= i < |users| ==> Value(InputRows(users, id, f, v)[i], g) == Value(users[i], g)
    ensures forall i :: 0 <= i < |users| ==> InputRows(users, id, f, v)[i].isEditing == users[i].isEditing
    ensures forall i, g :: 0 <= i < |users| && g != f ==>
              (g in InputRows(users, id, f, v)[i].editedFields <==> g in users[i].editedFields)
                && (g in users[i].editedFields ==> InputRows(users, id, f, v)[i].editedFields[g] == users[i].editedFields[g])
  {
    var r := InputRows(users, id, f, v);
    forall i, g | 0 <= i < |users| ensures Value(r[i], g) == Value(users[i], g) {
      if users[i].id == id {
        assert r[i].(editedFields := users[i].editedFields) == users[i];
      }
    }
  }

  /** Typing leaves the editing flags alone, so at most one row stays
      editing. */
  lemma InputOneEditing(users: seq<User>, id: Id, f: Field, v: string)
    requires OneEditing(users)
    ensures OneEditing(InputRows(users, id, f, v))
  {
    FlagsClearedOneEditing(users, InputRows(users, id, f, v));
  }

  /** Committing a row's buffer: edit mode ends and every column named in
      the buffer takes the buffered value; the buffer itself stays. */
  function Commit(u: User): (r: User)
    ensures !r.isEditing && r.id == u.id && r.editedFields == u.editedFields
    ensures forall f :: Value(r, f) == if f in u.editedFields then u.editedFields[f] else Value(u, f)
  {
    var e := u.editedFields;
    u.(isEditing := false,
       name := if Name in e then e[Name] else u.name,
       email := if Email in e then e[Email] else u.email,
       role := if Role in e then e[Role] else u.role)
  }

  /** Saving the rows with `id`. */
  function SaveRows(users: seq<User>, id: Id): (r: seq<User>)
    ensures |r| == |users|
    ensures forall i :: 0 <= i < |r| && users[i].id != id ==> r[i] == users[i]
    ensures forall i :: 0 <= i < |r| && users[i].id == id ==>
              !r[i].isEditing && r[i].id == id && r[i].editedFields == users[i].editedFields
    ensures forall i, f :: 0 <= i < |r| && users[i].id == id ==>
              Value(r[i], f) == if f in users[i].editedFields then users[i].editedFields[f] else Value(users[i], f)
  {
    Map(users, (u: User) => if u.id == id then Commit(u) else u)
  }

  /** Saving only clears editing flags, so at most one row stays editing. */
  lemma SaveOneEditing(users: seq<User>, id: Id)
    requires OneEditing(users)
    ensures OneEditing(SaveRows(users, id))
  {
    FlagsClearedOneEditing(users, SaveRows(users, id));
  }

  /** Because the buffer is kept, saving twice is saving once. */
  lemma SaveIdempotent(users: seq<User>, id: Id)
    ensures SaveRows(SaveRows(users, id), id) == SaveRows(users, id)
  {
    var once := SaveRows(users, id);
    var twice := SaveRows(once, id);
    forall i | 0 <= i < |users| ensures twice[i] == once[i] {
      if users[i].id == id {
        assert Value(twice[i], Name) == Value(once[i], Name);
        assert Value(twice[i], Email) == Value(once[i], Email);
        assert Value(twice[i], Role) == Value(once[i], Role);
      }
    }
  }

  /** Typing a value and then saving commits exactly that value. */
  lemma InputThenSave(users: seq<User>, id: Id, f: Field, v: string)
    ensures forall i :: 0 <= i < |users| && users[i].id == id ==>
              Value(SaveRows(InputRows(users, id, f, v), id)[i], f) == v
    ensures forall i, g :: 0 <= i < |users| && users[i].id == id && g != f && g !in users[i].editedFields ==>
              Value(SaveRows(InputRows(users, id, f, v), id)[i], g) == Value(users[i], g)
  {
    InputKeepsCommitted(users, id, f, v);
  }

  /** Deleting the rows with `id`; the other rows keep their order. */
  function DeleteRows(users: seq<User>, id: Id): (r: seq<User>)
    ensures |r| <= |users|
    ensures forall u :: u in r <==> u in users && u.id != id
  {
    Filter(users, (u: User) => u.id != id)
  }

  /** Deleting distributes over concatenation, so the survivors keep their
      relative order; unique ids stay unique. */
  lemma DeleteRowsOrder(a: seq<User>, b: seq<User>, id: Id)
    ensures DeleteRows(a + b, id) == DeleteRows(a, id) + DeleteRows(b, id)
    ensures UniqueIds(a) ==> UniqueIds(DeleteRows(a, id))
  {
    FilterConcat(a, b, (u: User) => u.id != id);
    if UniqueIds(a) {
      FilterDistinctKeys(a, (u: User) => u.id != id, IdOf);
    }
  }

  /** Filtering the rows, as both deletes do, keeps at most one row
      editing. */
  lemma FilterOneEditing(users: seq<User>, p: User -> bool)
    requires OneEditing(users)
    ensures OneEditing(Filter(users, p))
  {
    var R := (x: User, y: User) => !(x.isEditing && y.isEditing);
    assert Pairwise(users, R);
    FilterPairwise(users, p, R);
    var r := Filter(users, p);
    assert forall i, j :: 0 <= i < j < |r| ==> R(r[i], r[j]);
  }

  /** Deleting a row keeps at most one row editing. */
  lemma DeleteOneEditing(users: seq<User>, id: Id)
    requires OneEditing(users)
    ensures OneEditing(DeleteRows(users, id))
  {
    FilterOneEditing(users, (u: User) => u.id != id);
  }

  /** With unique ids, deleting an id that is present removes exactly one row. */
  lemma {:induction false} DeleteRowsLength(users: seq<User>, id: Id)
    requires UniqueIds(users) && id in Ids(users)
    ensures |DeleteRows(users, id)| == |users| - 1
  {
    var tail := users[1..];
    var p := (u: User) => u.id != id;
    assert UniqueIds(tail) by {
      forall i, j | 0 <= i < j < |tail| ensures IdOf(tail[i]) != IdOf(tail[j]) {
        assert tail[i] == users[i + 1] && tail[j] == users[j + 1];
      }
    }
    if users[0].id == id {
      forall u | u in tail ensures p(u) {
        var k :| 0 <= k < |tail| && tail[k] == u;
        assert IdOf(users[0]) != IdOf(users[k + 1]);
      }
      FilterAll(tail, p);
    } else {
      var i :| 0 <= i < |users| && Ids(users)[i] == id;
      assert Ids(tail)[i - 1] == id;
      DeleteRowsLength(tail, id);
    }
  }

  // ---------------------------------------------------------------- display

  /** What an editable cell shows. While editing it is the buffered value or,
      when none is buffered or the buffered one is the empty string (which
      is falsy), the committed one; otherwise the committed value. */
  function Shown(u: User, f: Field): (r: string)
    ensures !u.isEditing ==> r == Value(u, f)
    ensures u.isEditing && f in u.editedFields && u.editedFields[f] != "" ==> r == u.editedFields[f]
    ensures u.isEditing && (f !in u.editedFields || u.editedFields[f] == "") ==> r == Value(u, f)
  {
    if u.isEditing && f in u.editedFields && u.editedFields[f] != "" then u.editedFields[f] else Value(u, f)
  }

  /** While editing, the cell shows what saving would commit, except when
      the buffered value is the empty string and the committed one is not:
      then the cell shows the old value but saving commits "". In every
      case the cell shows either the committed or the to-be-saved value. */
  lemma ShownIsSaved(u: User, f: Field)
    ensures u.isEditing ==>
              ((Shown(u, f) == Value(Commit(u), f)) <==>
               !(f in u.editedFields && u.editedFields[f] == "" && Value(u, f) != ""))
    ensures Shown(u, f) == Value(u, f) || Shown(u, f) == Value(Commit(u), f)
  {
  }

  /** Clearing an input shows the committed value again, yet saving then
      commits the empty string. */
  lemma ClearedInputShowsOldButSavesEmpty(u: User, f: Field)
    requires u.isEditing
    ensures Shown(u.(editedFields := u.editedFields[f := ""]), f) == Value(u, f)
    ensures Value(Commit(u.(editedFields := u.editedFields[f := ""])), f) == ""
  {
  }
}
