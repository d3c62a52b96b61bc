/** The menu table and its edits (menu/handler.go): Create, Update and Delete keep the active
    menus a forest, and the recursive query that guards them terminates because of it. */
module MenuTable {
  import opened Wrappers
  import opened Text
  import opened Collections

  datatype MenuRow = MenuRow(
    parentId: Option<int>, menuType: string, code: string, name: string, sortOrder: int, active: bool)

  type Rows = map<int, MenuRow>

  datatype Form = Form(parentId: Option<int>, menuType: string, code: string, name: string, sortOrder: int)

  datatype MenuError =
    | BadType | CodeRequired | NameRequired | ParentIsSelf | ParentNotFound | ParentIsButton | ParentIsDescendant
    | CodeExists | NotFound | HasChildren

  predicate Active(rows: Rows, id: int) {
    id in rows && rows[id].active
  }

  // ----- the forest

  /** chain lists active menus from parent upwards, each the parent of the one before, the last without a parent. */
  predicate ChainUp(rows: Rows, parent: Option<int>, chain: seq<int>)
    decreases |chain|
  {
    if chain == [] then parent == None
    else parent == Some(chain[0]) && Active(rows, chain[0]) && ChainUp(rows, rows[chain[0]].parentId, chain[1..])
  }

  ghost predicate Rooted(rows: Rows, id: int) {
    exists chain :: ChainUp(rows, Some(id), chain)
  }

  /** Every active menu's ancestors are active and end at a menu without a parent. */
  ghost predicate Forest(rows: Rows) {
    forall id {:trigger Active(rows, id)} :: Active(rows, id) ==> Rooted(rows, id)
  }

  /** anc is a proper ancestor of id. */
  ghost predicate Descends(rows: Rows, id: int, anc: int) {
    exists chain, k: nat :: DescendsBy(rows, id, anc, chain, k)
  }

  ghost predicate DescendsBy(rows: Rows, id: int, anc: int, chain: seq<int>, k: nat) {
    ChainUp(rows, Some(id), chain) && 1 <= k < |chain| && chain[k] == anc
  }

  lemma {:induction false} ChainUnique(rows: Rows, parent: Option<int>, a: seq<int>, b: seq<int>)
    requires ChainUp(rows, parent, a) && ChainUp(rows, parent, b)
    ensures a == b
    decreases |a|
  {
    if a != [] {
      ChainUnique(rows, rows[a[0]].parentId, a[1..], b[1..]);
    }
  }

  lemma {:induction false} ChainSuffix(rows: Rows, parent: Option<int>, chain: seq<int>, k: nat)
    requires ChainUp(rows, parent, chain) && k < |chain|
    ensures ChainUp(rows, Some(chain[k]), chain[k..]) && Active(rows, chain[k])
    decreases k
  {
    if k > 0 {
      ChainSuffix(rows, rows[chain[0]].parentId, chain[1..], k - 1);
      assert chain[1..][k - 1..] == chain[k..];
    } else {
      assert chain[0..] == chain;
    }
  }

  lemma ChainDistinct(rows: Rows, parent: Option<int>, chain: seq<int>)
    requires ChainUp(rows, parent, chain)
    ensures Distinct(chain)
  {
    forall i, j | 0 <= i < j < |chain|
      ensures chain[i] != chain[j]
    {
      if chain[i] == chain[j] {
        ChainSuffix(rows, parent, chain, i);
        ChainSuffix(rows, parent, chain, j);
        assert |chain[i..]| != |chain[j..]|;
        ChainUnique(rows, Some(chain[i]), chain[i..], chain[j..]);
      }
    }
  }

  lemma ChainFits(rows: Rows, parent: Option<int>, chain: seq<int>)
    requires ChainUp(rows, parent, chain)
    ensures |chain| <= |rows|
  {
    ChainDistinct(rows, parent, chain);
    DistinctCardinality(chain);
    forall id | id in Elems(chain)
      ensures id in rows.Keys
    {
      var k :| 0 <= k < |chain| && chain[k] == id;
      ChainSuffix(rows, parent, chain, k);
    }
    SubsetCardinality(Elems(chain), rows.Keys);
  }

  // ----- the recursive query

  function ChildrenOf(rows: Rows, parents: set<int>): set<int> {
    set id | id in rows && rows[id].active && rows[id].parentId.Some? && rows[id].parentId.value in parents
  }

  /** The menus k levels below self. */
  function Level(rows: Rows, self: int, k: nat): set<int> {
    if k == 0 then ChildrenOf(rows, {self}) else ChildrenOf(rows, Level(rows, self, k - 1))
  }

  lemma {:induction false} LevelDescends(rows: Rows, self: int, k: nat, id: int)
    requires Forest(rows)
    ensures id in Level(rows, self, k) <==>
            exists chain :: ChainUp(rows, Some(id), chain) && k + 1 < |chain| && chain[k + 1] == self
  {
    if id in Level(rows, self, k) {
      assert Active(rows, id);
      var chain :| ChainUp(rows, Some(id), chain);
      var up := rows[id].parentId.value;
      assert chain[0] == id && ChainUp(rows, Some(up), chain[1..]);
      if k > 0 {
        LevelDescends(rows, self, k - 1, up);
        var above :| ChainUp(rows, Some(up), above) && k < |above| && above[k] == self;
        ChainUnique(rows, Some(up), above, chain[1..]);
      }
      assert chain[k + 1] == self;
    }
    if exists chain :: ChainUp(rows, Some(id), chain) && k + 1 < |chain| && chain[k + 1] == self {
      var chain :| ChainUp(rows, Some(id), chain) && k + 1 < |chain| && chain[k + 1] == self;
      var up := chain[1];
      assert chain[0] == id && ChainUp(rows, rows[id].parentId, chain[1..]);
      if k > 0 {
        LevelDescends(rows, self, k - 1, up);
        assert chain[1..][k] == self;
      }
    }
  }

  lemma DescendsIsLevel(rows: Rows, self: int, id: int)
    requires Forest(rows)
    ensures Descends(rows, id, self) <==> exists k: nat :: id in Level(rows, self, k)
  {
    if Descends(rows, id, self) {
      var chain, k: nat :| DescendsBy(rows, id, self, chain, k);
      LevelDescends(rows, self, k - 1, id);
    }
    if k: nat :| id in Level(rows, self, k) {
      LevelDescends(rows, self, k, id);
      var chain :| ChainUp(rows, Some(id), chain) && k + 1 < |chain| && chain[k + 1] == self;
      assert DescendsBy(rows, id, self, chain, k + 1);
    }
  }

  /** The query's working table is empty after fewer rounds than the table has rows. */
  lemma LevelsRunOut(rows: Rows, self: int, k: nat)
    requires Forest(rows) && Level(rows, self, k) != {}
    ensures k + 1 < |rows|
  {
    var id := Member(Level(rows, self, k));
    LevelDescends(rows, self, k, id);
    var chain :| ChainUp(rows, Some(id), chain) && k + 1 < |chain| && chain[k + 1] == self;
    ChainFits(rows, Some(id), chain);
  }

  lemma {:induction false} EmptyLevelStaysEmpty(rows: Rows, self: int, k: nat, j: nat)
    requires Level(rows, self, k) == {} && k <= j
    ensures Level(rows, self, j) == {} && forall id :: id !in Level(rows, self, j)
  {
    if k < j {
      EmptyLevelStaysEmpty(rows, self, k, j - 1);
    }
  }

  ghost predicate FoundBy(rows: Rows, self: int, candidate: int, k: nat) {
    exists j: nat :: j <= k && candidate in Level(rows, self, j)
  }

  lemma FoundSteps(rows: Rows, self: int, candidate: int, k: nat)
    ensures FoundBy(rows, self, candidate, 0) <==> candidate in Level(rows, self, 0)
    ensures FoundBy(rows, self, candidate, k + 1) <==>
            FoundBy(rows, self, candidate, k) || candidate in Level(rows, self, k + 1)
  {
    if FoundBy(rows, self, candidate, k) {
      var j: nat :| j <= k && candidate in Level(rows, self, j);
      assert j <= k + 1;
    }
  }

  lemma FoundInAll(rows: Rows, self: int, candidate: int, k: nat)
    requires Forest(rows) && Level(rows, self, k) == {}
    ensures FoundBy(rows, self, candidate, k) <==> Descends(rows, candidate, self)
  {
    DescendsIsLevel(rows, self, candidate);
    if Descends(rows, candidate, self) {
      var j: nat :| candidate in Level(rows, self, j);
      if j > k {
        EmptyLevelStaysEmpty(rows, self, k, j);
        assert false;
      }
    }
    if FoundBy(rows, self, candidate, k) {
      var j: nat :| j <= k && candidate in Level(rows, self, j);
      assert exists i: nat :: candidate in Level(rows, self, i);
    }
  }

  /** The recursive query, round by round: rows found in one round are joined in the next. */
  method IsDescendant(rows: Rows, self: int, candidate: int) returns (found: bool)
    requires Forest(rows)
    ensures found <==> Descends(rows, candidate, self)
  {
    var working := ChildrenOf(rows, {self});
    found := candidate in working;
    ghost var k: nat := 0;
    FoundSteps(rows, self, candidate, 0);
    while working != {}
      invariant working == Level(rows, self, k)
      invariant found <==> FoundBy(rows, self, candidate, k)
      decreases |rows| - k
    {
      LevelsRunOut(rows, self, k);
      FoundSteps(rows, self, candidate, k);
      working := ChildrenOf(rows, working);
      k := k + 1;
      found := found || candidate in working;
    }
    FoundInAll(rows, self, candidate, k);
  }

  // ----- the guard

  ghost function ParentCheck(rows: Rows, parentId: Option<int>, self: int): Option<MenuError> {
    if parentId.None? then None
    else if parentId.value == self then Some(ParentIsSelf)
    else if !Active(rows, parentId.value) || rows[parentId.value].menuType == "" then Some(ParentNotFound)
    else if rows[parentId.value].menuType == "button" then Some(ParentIsButton)
    else if self > 0 && Descends(rows, parentId.value, self) then Some(ParentIsDescendant)
    else None
  }

  method EnsureParentExists(rows: Rows, parentId: Option<int>, self: int) returns (error: Option<MenuError>)
    requires Forest(rows)
    ensures error == ParentCheck(rows, parentId, self)
  {
    if parentId.None? {
      return None;
    }
    if parentId.value == self {
      return Some(ParentIsSelf);
    }
    var parentType :=
      if parentId.value in rows && rows[parentId.value].active then rows[parentId.value].menuType else "";
    if parentType == "" {
      return Some(ParentNotFound);
    }
    if parentType == "button" {
      return Some(ParentIsButton);
    }
    if self > 0 {
      var isDescendant := IsDescendant(rows, self, parentId.value);
      if isDescendant {
        return Some(ParentIsDescendant);
      }
    }
    return None;
  }

  // ----- what an edit does to the forest

  lemma {:induction false} ChainElsewhere(rows: Rows, next: Rows, id: int, parent: Option<int>, chain: seq<int>)
    requires ChainUp(rows, parent, chain) && id !in chain
    requires forall x :: x != id && x in rows ==> x in next && next[x] == rows[x]
    ensures ChainUp(next, parent, chain)
    decreases |chain|
  {
    if chain != [] {
      ChainElsewhere(rows, next, id, rows[chain[0]].parentId, chain[1..]);
    }
  }

  /** A chain through the edited menu continues with the new parent's chain. */
  lemma {:induction false} ChainSpliced(rows: Rows, next: Rows, id: int, parent: Option<int>, chain: seq<int>,
      tail: seq<int>)
      returns (spliced: seq<int>)
    requires ChainUp(rows, parent, chain) && Active(next, id) && ChainUp(next, next[id].parentId, tail)
    requires forall x :: x != id && x in rows ==> x in next && next[x] == rows[x]
    ensures ChainUp(next, parent, spliced)
    decreases |chain|
  {
    if chain == [] {
      spliced := [];
    } else if chain[0] == id {
      spliced := [id] + tail;
      assert spliced[1..] == tail;
    } else {
      var rest := ChainSpliced(rows, next, id, rows[chain[0]].parentId, chain[1..], tail);
      spliced := [chain[0]] + rest;
      assert spliced[1..] == rest;
    }
  }

  /** Writing a menu whose parent passed the guard keeps the forest. */
  lemma WriteKeepsForest(rows: Rows, id: int, row: MenuRow)
    requires Forest(rows) && id > 0 && row.active && ParentCheck(rows, row.parentId, id) == None
    ensures Forest(rows[id := row])
  {
    var next := rows[id := row];
    var tail := TailAfterWrite(rows, id, row);
    forall x | Active(next, x)
      ensures Rooted(next, x)
    {
      if x == id {
        assert ([id] + tail)[1..] == tail;
        assert ChainUp(next, Some(id), [id] + tail);
      } else {
        assert Active(rows, x);
        var chain :| ChainUp(rows, Some(x), chain);
        var spliced := ChainSpliced(rows, next, id, Some(x), chain, tail);
      }
    }
  }

  lemma TailAfterWrite(rows: Rows, id: int, row: MenuRow) returns (tail: seq<int>)
    requires Forest(rows) && id > 0 && row.active && ParentCheck(rows, row.parentId, id) == None
    ensures ChainUp(rows[id := row], row.parentId, tail)
  {
    if row.parentId.None? {
      tail := [];
    } else {
      var p := row.parentId.value;
      assert Active(rows, p);
      tail :| ChainUp(rows, Some(p), tail);
      if id in tail {
        var k :| 0 <= k < |tail| && tail[k] == id;
        assert tail[0] == p;
        assert DescendsBy(rows, p, id, tail, k);
      }
      ChainElsewhere(rows, rows[id := row], id, Some(p), tail);
    }
  }

  lemma ChildInChain(rows: Rows, parent: Option<int>, chain: seq<int>, k: nat)
    requires ChainUp(rows, parent, chain) && 0 < k < |chain|
    ensures chain[k - 1] in ChildrenOf(rows, {chain[k]})
  {
    ChainSuffix(rows, parent, chain, k - 1);
    assert chain[k - 1..][1..] == chain[k..];
  }

  lemma DeactivateKeepsForest(rows: Rows, id: int)
    requires Forest(rows) && Active(rows, id) && ChildrenOf(rows, {id}) == {}
    ensures Forest(rows[id := rows[id].(active := false)])
  {
    var next := rows[id := rows[id].(active := false)];
    forall x | Active(next, x)
      ensures Rooted(next, x)
    {
      assert Active(rows, x);
      var chain :| ChainUp(rows, Some(x), chain);
      if id in chain {
        var k :| 0 <= k < |chain| && chain[k] == id;
        assert k > 0;
        ChildInChain(rows, Some(x), chain, k);
      }
      ChainElsewhere(rows, next, id, Some(x), chain);
    }
  }

  // ----- the handlers

  function LowerChar(c: char): char {
    if 'A' <= c <= 'Z' then c - 'A' + 'a' else c
  }

  function Lower(s: string): string {
    seq(|s|, i requires 0 <= i < |s| => LowerChar(s[i]))
  }

  /** Trims the form and checks it. */
  function Normalized(form: Form): Result<Form, MenuError> {
    var trimmed := Lower(Trim(form.menuType));
    var menuType := if trimmed == "" then "page" else trimmed;
    var code, name := Trim(form.code), Trim(form.name);
    if menuType !in ["directory", "page", "button"] then Err(BadType)
    else if code == "" then Err(CodeRequired)
    else if name == "" then Err(NameRequired)
    else Ok(form.(menuType := menuType, code := code, name := name))
  }

  function RowOf(form: Form): MenuRow {
    MenuRow(form.parentId, form.menuType, form.code, form.name, form.sortOrder, true)
  }

  predicate CodeTaken(rows: Rows, code: string, except: set<int>) {
    exists id :: id in rows && id !in except && rows[id].code == code
  }

  ghost function AfterCreate(rows: Rows, form: Form, newId: int): Result<Rows, MenuError> {
    match Normalized(form)
    case Err(e) => Err(e)
    case Ok(f) =>
      var error := ParentCheck(rows, f.parentId, 0);
      if error.Some? then Err(error.value)
      else if CodeTaken(rows, f.code, {}) then Err(CodeExists)
      else Ok(rows[newId := RowOf(f)])
  }

  ghost function AfterUpdate(rows: Rows, id: int, form: Form): Result<Rows, MenuError> {
    match Normalized(form)
    case Err(e) => Err(e)
    case Ok(f) =>
      var error := ParentCheck(rows, f.parentId, id);
      if error.Some? then Err(error.value)
      else if !Active(rows, id) then Err(NotFound)
      else if CodeTaken(rows, f.code, {id}) then Err(CodeExists)
      else Ok(rows[id := RowOf(f)])
  }

  function AfterDelete(rows: Rows, id: int): Result<Rows, MenuError> {
    if ChildrenOf(rows, {id}) != {} then Err(HasChildren)
    else if !Active(rows, id) then Err(NotFound)
    else Ok(rows[id := rows[id].(active := false)])
  }

  predicate Committed(r: Result<Rows, MenuError>, before: Rows, after: Rows, error: Option<MenuError>) {
    match r
    case Ok(next) => after == next && error == None
    case Err(e) => after == before && error == Some(e)
  }

  /** The active menus form a forest; ids come from a sequence that starts at one, and types from a
      checked form. */
  ghost predicate ValidRows(rows: Rows) {
    Forest(rows) && forall id :: id in rows ==> id > 0 && rows[id].menuType in ["directory", "page", "button"]
  }

  lemma NormalizedType(form: Form)
    requires Normalized(form).Ok?
    ensures RowOf(Normalized(form).value).menuType in ["directory", "page", "button"]
  {
    hide Trim, Lower;
  }

  /** Writing a checked form under an accepted parent keeps the table valid. */
  lemma WrittenIsValid(rows: Rows, id: int, form: Form)
    requires ValidRows(rows) && id > 0 && Normalized(form).Ok?
    requires ParentCheck(rows, Normalized(form).value.parentId, id) == None
    ensures ValidRows(rows[id := RowOf(Normalized(form).value)])
  {
    hide Forest, ParentCheck, Normalized;
    NormalizedType(form);
    WriteKeepsForest(rows, id, RowOf(Normalized(form).value));
  }

  class Menus {
    var rows: Rows

    ghost predicate Valid()
      reads this
    {
      ValidRows(rows)
    }

    constructor ()
      ensures Valid() && rows == map[]
    {
      rows := map[];
    }

    method Create(form: Form, newId: int) returns (error: Option<MenuError>)
      requires Valid() && newId > 0 && newId !in rows
      modifies this
      ensures Valid() && Committed(AfterCreate(old(rows), form, newId), old(rows), rows, error)
    {
      hide Normalized, ParentCheck, Forest, CodeTaken, RowOf;
      var normalized := Normalized(form);
      if normalized.Err? {
        return Some(normalized.error);
      }
      var f := normalized.value;
      error := EnsureParentExists(rows, f.parentId, 0);
      if error.Some? {
        return;
      }
      if CodeTaken(rows, f.code, {}) {
        return Some(CodeExists);
      }
      FreshIsNoAncestor(rows, f.parentId, newId);
      WrittenIsValid(rows, newId, form);
      rows := rows[newId := RowOf(f)];
    }

    method Update(id: int, form: Form) returns (error: Option<MenuError>)
      requires Valid()
      modifies this
      ensures Valid() && Committed(AfterUpdate(old(rows), id, form), old(rows), rows, error)
    {
      hide Normalized, ParentCheck, Forest, CodeTaken, RowOf;
      var normalized := Normalized(form);
      if normalized.Err? {
        return Some(normalized.error);
      }
      var f := normalized.value;
      error := EnsureParentExists(rows, f.parentId, id);
      if error.Some? {
        return;
      }
      if !Active(rows, id) {
        return Some(NotFound);
      }
      if CodeTaken(rows, f.code, {id}) {
        return Some(CodeExists);
      }
      WrittenIsValid(rows, id, form);
      rows := rows[id := RowOf(f)];
    }

    method Delete(id: int) returns (error: Option<MenuError>)
      requires Valid()
      modifies this
      ensures Valid() && Committed(AfterDelete(old(rows), id), old(rows), rows, error)
    {
      var children := ChildrenOf(rows, {id});
      if |children| > 0 {
        return Some(HasChildren);
      }
      if !Active(rows, id) {
        return Some(NotFound);
      }
      DeactivateKeepsForest(rows, id);
      rows := rows[id := rows[id].(active := false)];
      return None;
    }
  }

  /** A new id is nobody's ancestor, so the guard for a new menu is the guard for its id. */
  lemma FreshIsNoAncestor(rows: Rows, parentId: Option<int>, newId: int)
    requires Forest(rows) && newId > 0 && newId !in rows && ParentCheck(rows, parentId, 0) == None
    ensures ParentCheck(rows, parentId, newId) == None
  {
    if parentId.Some? && Descends(rows, parentId.value, newId) {
      var chain, k: nat :| DescendsBy(rows, parentId.value, newId, chain, k);
      ChainSuffix(rows, parentId, chain, k);
      assert false;
    }
  }

  // ----- whole runs

  datatype Edit = Create(form: Form, newId: int) | Update(id: int, form: Form) | Delete(id: int)

  ghost function Apply(rows: Rows, e: Edit): Rows {
    var r := match e
      case Create(form, newId) => if newId > 0 && newId !in rows then AfterCreate(rows, form, newId)
          else Err(CodeExists)
      case Update(id, form) => AfterUpdate(rows, id, form)
      case Delete(id) => AfterDelete(rows, id);
    if r.Ok? then r.value else rows
  }

  ghost function Run(rows: Rows, edits: seq<Edit>): Rows {
    if edits == [] then rows else Apply(Run(rows, edits[..|edits| - 1]), edits[|edits| - 1])
  }

  lemma CreateKeepsForest(rows: Rows, form: Form, newId: int)
    requires ValidRows(rows) && newId > 0 && newId !in rows && AfterCreate(rows, form, newId).Ok?
    ensures ValidRows(AfterCreate(rows, form, newId).value)
  {
    hide Normalized, ParentCheck, CodeTaken, RowOf;
    var f := Normalized(form).value;
    FreshIsNoAncestor(rows, f.parentId, newId);
    WrittenIsValid(rows, newId, form);
  }

  lemma UpdateKeepsForest(rows: Rows, id: int, form: Form)
    requires ValidRows(rows) && AfterUpdate(rows, id, form).Ok?
    ensures ValidRows(AfterUpdate(rows, id, form).value)
  {
    hide Normalized, ParentCheck, CodeTaken, RowOf;
    WrittenIsValid(rows, id, form);
  }

  lemma DeleteKeepsForest(rows: Rows, id: int)
    requires ValidRows(rows) && AfterDelete(rows, id).Ok?
    ensures ValidRows(AfterDelete(rows, id).value)
  {
    DeactivateKeepsForest(rows, id);
  }

  lemma ApplyKeepsForest(rows: Rows, e: Edit)
    requires ValidRows(rows)
    ensures ValidRows(Apply(rows, e))
  {
    match e
    case Create(form, newId) =>
      if newId > 0 && newId !in rows && AfterCreate(rows, form, newId).Ok? {
        CreateKeepsForest(rows, form, newId);
      }
    case Update(id, form) =>
      if AfterUpdate(rows, id, form).Ok? {
        UpdateKeepsForest(rows, id, form);
      }
    case Delete(id) =>
      if AfterDelete(rows, id).Ok? {
        DeleteKeepsForest(rows, id);
      }
  }

  /** After any sequence of edits, accepted or refused, every active menu has an active parent
      chain that ends at a menu without a parent. */
  lemma {:induction false} EditsKeepForest(edits: seq<Edit>)
    ensures ValidRows(Run(map[], edits))
  {
    if edits != [] {
      EditsKeepForest(edits[..|edits| - 1]);
      ApplyKeepsForest(Run(map[], edits[..|edits| - 1]), edits[|edits| - 1]);
    }
  }

  // ----- which edits are accepted

  /** A type, page if it is blank, and a code and a name that are not blank. */
  predicate Complete(form: Form) {
    Lower(Trim(form.menuType)) in ["", "directory", "page", "button"] && Trim(form.code) != "" && Trim(form.name) != ""
  }

  /** The row a complete form asks for. */
  function Asked(form: Form): MenuRow {
    var menuType := Lower(Trim(form.menuType));
    MenuRow(form.parentId, if menuType == "" then "page" else menuType, Trim(form.code), Trim(form.name),
            form.sortOrder, true)
  }

  /** No parent, or an active menu that is no button. */
  ghost predicate CanBeUnder(rows: Rows, parent: Option<int>) {
    parent.None? || (Active(rows, parent.value) && rows[parent.value].menuType != "button")
  }

  /** Rows other than id have another code; deactivated rows count. */
  ghost predicate CodeFree(rows: Rows, id: int, code: string) {
    forall other :: other in rows && rows[other].code == code ==> other == id
  }

  lemma CompleteIff(form: Form)
    ensures Normalized(form).Ok? <==> Complete(form)
    ensures Complete(form) ==>
              RowOf(Normalized(form).value) == Asked(form) && Normalized(form).value.parentId == form.parentId &&
              Normalized(form).value.code == Trim(form.code)
  {
    hide Trim, Lower;
  }

  /** A menu is created if and only if its form is complete, its parent can hold it and its code is
      free; then the row asked for is added. */
  lemma CreateAcceptedIff(rows: Rows, form: Form, newId: int)
    requires ValidRows(rows) && newId > 0 && newId !in rows
    ensures AfterCreate(rows, form, newId).Ok? <==>
            Complete(form) && CanBeUnder(rows, form.parentId) && CodeFree(rows, newId, Trim(form.code))
    ensures AfterCreate(rows, form, newId).Ok? ==> AfterCreate(rows, form, newId).value == rows[newId := Asked(form)]
  {
    hide Normalized, Complete, RowOf, Asked, Trim, Descends, Forest;
    CompleteIff(form);
  }

  /** An edit is accepted if and only if besides the menu is active and neither it nor a menu below
      it becomes its parent. */
  lemma UpdateAcceptedIff(rows: Rows, id: int, form: Form)
    requires ValidRows(rows)
    ensures AfterUpdate(rows, id, form).Ok? <==>
            && Complete(form) && CanBeUnder(rows, form.parentId) && CodeFree(rows, id, Trim(form.code))
            && Active(rows, id) && form.parentId != Some(id)
            && !(form.parentId.Some? && Descends(rows, form.parentId.value, id))
    ensures AfterUpdate(rows, id, form).Ok? ==> AfterUpdate(rows, id, form).value == rows[id := Asked(form)]
  {
    hide Normalized, Complete, RowOf, Asked, Trim, Descends, Forest;
    CompleteIff(form);
  }

  /** A menu is deactivated if and only if it is active and no active menu is under it. */
  lemma DeleteAcceptedIff(rows: Rows, id: int)
    ensures AfterDelete(rows, id).Ok? <==>
            Active(rows, id) && forall other :: Active(rows, other) ==> rows[other].parentId != Some(id)
    ensures AfterDelete(rows, id).Ok? ==> AfterDelete(rows, id).value == rows[id := rows[id].(active := false)]
  {
    var children := ChildrenOf(rows, {id});
    if other :| Active(rows, other) && rows[other].parentId == Some(id) {
      assert other in children;
    } else {
      forall other
        ensures other !in children
      {
      }
    }
  }

  // ----- codes over whole runs

  ghost predicate DistinctCodes(rows: Rows) {
    forall a, b :: a in rows && b in rows && rows[a].code == rows[b].code ==> a == b
  }

  ghost predicate TidyRows(rows: Rows) {
    forall id :: id in rows ==> Tidy(rows[id].code) && Tidy(rows[id].name)
  }

  predicate Tidy(s: string) {
    s != "" && Trim(s) == s
  }

  lemma AskedIsTidy(form: Form)
    requires Complete(form)
    ensures Tidy(Asked(form).code) && Tidy(Asked(form).name) && Asked(form).code == Trim(form.code)
  {
    TrimIdempotent(form.code);
    TrimIdempotent(form.name);
    hide Trim, Lower;
  }

  lemma ApplyKeepsCodes(rows: Rows, e: Edit)
    requires ValidRows(rows) && DistinctCodes(rows) && TidyRows(rows)
    ensures DistinctCodes(Apply(rows, e)) && TidyRows(Apply(rows, e))
  {
    hide ValidRows, AfterCreate, AfterUpdate, AfterDelete, Complete, Asked, Descends, Tidy, Trim;
    match e
    case Create(form, newId) =>
      if newId > 0 && newId !in rows && AfterCreate(rows, form, newId).Ok? {
        CreateAcceptedIff(rows, form, newId);
        AskedIsTidy(form);
      }
    case Update(id, form) =>
      if AfterUpdate(rows, id, form).Ok? {
        UpdateAcceptedIff(rows, id, form);
        AskedIsTidy(form);
      }
    case Delete(id) =>
      if AfterDelete(rows, id).Ok? {
        DeleteAcceptedIff(rows, id);
      }
  }

  /** After any sequence of edits no two menus, deactivated ones included, share a code, and every
      code and name is trimmed and not blank. */
  lemma {:induction false} EditsKeepCodes(edits: seq<Edit>)
    ensures DistinctCodes(Run(map[], edits)) && TidyRows(Run(map[], edits))
  {
    if edits != [] {
      EditsKeepCodes(edits[..|edits| - 1]);
      EditsKeepForest(edits[..|edits| - 1]);
      ApplyKeepsCodes(Run(map[], edits[..|edits| - 1]), edits[|edits| - 1]);
    }
  }
}
