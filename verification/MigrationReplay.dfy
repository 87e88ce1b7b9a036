/** The migration log: set and dictionary shortcuts against replaying it statement by statement. */
module MigrationReplay {
  import opened Basics

  datatype Column = Column(typeName: string, nullable: bool, defaultValue: Option<string>)

  datatype Op =
    | AddForeignKey(name: string, columns: seq<string>, parent: string, parentColumns: seq<string>, onDelete: string, onUpdate: string)
    | DropForeignKey(name: string)
    | AddUnique(name: string, columns: seq<string>)
    | DropIndex(name: string)
    | DefineColumn(name: string, column: Column)
    | DropColumn(name: string)

  datatype Unique = Unique(name: string, columns: seq<string>)

  datatype Table = Table(columns: map<string, Column>, uniques: seq<Unique>, constraintNames: seq<string>)

  datatype Statement =
    | CreateTable(table: string, definition: Table)
    | DropTable(table: string)
    | AlterTable(table: string, ops: seq<Op>)

  // ---- Edits of a dictionary: the last edit of a name decides ----

  datatype Edit<T> = Put(name: string, value: T) | Remove(name: string) | Keep

  predicate Touches<T>(e: Edit<T>, name: string) {
    !e.Keep? && e.name == name
  }

  function AfterEdit<T>(m: map<string, T>, e: Edit<T>): map<string, T> {
    match e
    case Put(name, value) => m[name := value]
    case Remove(name) => m - {name}
    case Keep => m
  }

  function AfterEdits<T>(m: map<string, T>, edits: seq<Edit<T>>): map<string, T> {
    if edits == [] then m else AfterEdit(AfterEdits(m, edits[..|edits| - 1]), edits[|edits| - 1])
  }

  /** Edit i is the last one of `name`. */
  predicate IsLast<T>(edits: seq<Edit<T>>, name: string, i: int) {
    0 <= i < |edits| && Touches(edits[i], name) && forall j :: i < j < |edits| ==> !Touches(edits[j], name)
  }

  ghost predicate Untouched<T>(edits: seq<Edit<T>>, name: string) {
    forall i :: 0 <= i < |edits| ==> !Touches(edits[i], name)
  }

  /** What the last edit of a name left, or what was there before if nothing touched the name. */
  lemma {:induction false} LastEditWins<T>(m: map<string, T>, edits: seq<Edit<T>>, name: string)
    ensures Untouched(edits, name) || exists i :: IsLast(edits, name, i)
    ensures Untouched(edits, name) ==>
              (name in AfterEdits(m, edits) <==> name in m) && (name in m ==> AfterEdits(m, edits)[name] == m[name])
    ensures forall i :: IsLast(edits, name, i) ==>
              && (name in AfterEdits(m, edits) <==> edits[i].Put?)
              && (edits[i].Put? ==> AfterEdits(m, edits)[name] == edits[i].value)
  {
    if edits != [] {
      var n := |edits| - 1;
      var before := edits[..n];
      LastEditWins(m, before, name);
      if Touches(edits[n], name) {
        assert IsLast(edits, name, n);
      } else {
        forall i ensures IsLast(edits, name, i) <==> IsLast(before, name, i) {}
        assert Untouched(edits, name) <==> Untouched(before, name);
      }
    }
  }

  // ---- Foreign keys ----

  datatype ForeignKey = ForeignKey(child: string, columns: seq<string>, parent: string, parentColumns: seq<string>,
                                   onDelete: string, onUpdate: string)

  function FullEdit(child: string, op: Op): Edit<ForeignKey> {
    match op
    case AddForeignKey(name, columns, parent, parentColumns, onDelete, onUpdate) =>
      Put(name, ForeignKey(child, columns, parent, parentColumns, onDelete, onUpdate))
    case DropForeignKey(name) => Remove(name)
    case _ => Keep
  }

  /** The parent of the first addition of `name` in one ALTER. */
  function FirstParent(ops: seq<Op>, name: string): string {
    if ops == [] then ""
    else if ops[0].AddForeignKey? && ops[0].name == name then ops[0].parent
    else FirstParent(ops[1..], name)
  }

  /** The count keeps child and parent only, and takes the parent from the first addition of the name in the ALTER. */
  function ShortEdit(child: string, ops: seq<Op>, op: Op): Edit<(string, string)> {
    match op
    case AddForeignKey(name, _, _, _, _, _) => Put(name, (child, FirstParent(ops, name)))
    case DropForeignKey(name) => Remove(name)
    case _ => Keep
  }

  function FullEditsOf(child: string, ops: seq<Op>): seq<Edit<ForeignKey>> {
    seq(|ops|, i requires 0 <= i < |ops| => FullEdit(child, ops[i]))
  }

  function ShortEditsOf(child: string, ops: seq<Op>): seq<Edit<(string, string)>> {
    seq(|ops|, i requires 0 <= i < |ops| => ShortEdit(child, ops, ops[i]))
  }

  function FullEdits(log: seq<Statement>): seq<Edit<ForeignKey>> {
    if log == [] then []
    else
      var s := log[|log| - 1];
      FullEdits(log[..|log| - 1]) + if s.AlterTable? then FullEditsOf(s.table, s.ops) else []
  }

  function ShortEdits(log: seq<Statement>): seq<Edit<(string, string)>> {
    if log == [] then []
    else
      var s := log[|log| - 1];
      ShortEdits(log[..|log| - 1]) + if s.AlterTable? then ShortEditsOf(s.table, s.ops) else []
  }

  lemma {:induction false} AfterConcat<T>(m: map<string, T>, a: seq<Edit<T>>, b: seq<Edit<T>>)
    ensures AfterEdits(m, a + b) == AfterEdits(AfterEdits(m, a), b)
  {
    if b == [] {
      assert a + b == a;
    } else {
      assert (a + b)[..|a + b| - 1] == a + b[..|b| - 1];
      AfterConcat(m, a, b[..|b| - 1]);
    }
  }

  lemma AfterOneMore<T>(m: map<string, T>, edits: seq<Edit<T>>, i: nat)
    requires i < |edits|
    ensures AfterEdits(m, edits[..i + 1]) == AfterEdit(AfterEdits(m, edits[..i]), edits[i])
  {
    assert edits[..i + 1][..i] == edits[..i];
  }

  method ParseForeignKeys(log: seq<Statement>) returns (current: map<string, ForeignKey>)
    ensures current == AfterEdits(map[], FullEdits(log))
  {
    current := map[];
    for i := 0 to |log|
      invariant current == AfterEdits(map[], FullEdits(log[..i]))
    {
      assert log[..i + 1][..i] == log[..i];
      if log[i].AlterTable? {
        var child, ops := log[i].table, log[i].ops;
        ghost var edits := FullEditsOf(child, ops);
        ghost var start := current;
        for k := 0 to |ops|
          invariant current == AfterEdits(start, edits[..k])
        {
          AfterOneMore(start, edits, k);
          var op := ops[k];
          if op.DropForeignKey? {
            current := current - {op.name};
          } else if op.AddForeignKey? {
            current := current[op.name := ForeignKey(child, op.columns, op.parent, op.parentColumns, op.onDelete, op.onUpdate)];
          }
        }
        assert edits[..|ops|] == edits;
        AfterConcat(map[], FullEdits(log[..i]), edits);
      } else {
        assert FullEdits(log[..i + 1]) == FullEdits(log[..i]);
      }
    }
    assert log[..|log|] == log;
  }

  // ---- Tables ----

  predicate Creates(s: Statement, table: string) {
    s.CreateTable? && s.table == table
  }

  predicate Drops(s: Statement, table: string) {
    s.DropTable? && s.table == table
  }

  predicate Alters(s: Statement, table: string) {
    s.AlterTable? && s.table == table
  }

  function Created(log: seq<Statement>): set<string> {
    set s <- log | s.CreateTable? :: s.table
  }

  function Dropped(log: seq<Statement>): set<string> {
    set s <- log | s.DropTable? :: s.table
  }

  /** The shortcut: created somewhere and dropped nowhere. */
  function Live(log: seq<Statement>): set<string> {
    Created(log) - Dropped(log)
  }

  method LiveTables(log: seq<Statement>) returns (live: set<string>)
    ensures live == Live(log)
  {
    var created, dropped := {}, {};
    for i := 0 to |log|
      invariant created == Created(log[..i]) && dropped == Dropped(log[..i])
    {
      assert log[..i + 1] == log[..i] + [log[i]];
      if log[i].CreateTable? { created := created + {log[i].table}; }
      if log[i].DropTable? { dropped := dropped + {log[i].table}; }
    }
    assert log[..|log|] == log;
    live := created - dropped;
  }

  method ShortForeignKeys(log: seq<Statement>) returns (current: map<string, (string, string)>)
    ensures current == AfterEdits(map[], ShortEdits(log))
  {
    current := map[];
    for i := 0 to |log|
      invariant current == AfterEdits(map[], ShortEdits(log[..i]))
    {
      assert log[..i + 1][..i] == log[..i];
      if log[i].AlterTable? {
        var child, ops := log[i].table, log[i].ops;
        ghost var edits := ShortEditsOf(child, ops);
        ghost var start := current;
        for k := 0 to |ops|
          invariant current == AfterEdits(start, edits[..k])
        {
          AfterOneMore(start, edits, k);
          var op := ops[k];
          if op.DropForeignKey? {
            current := current - {op.name};
          } else if op.AddForeignKey? {
            current := current[op.name := (child, FirstParent(ops, op.name))];
          }
        }
        assert edits[..|ops|] == edits;
        AfterConcat(map[], ShortEdits(log[..i]), edits);
      } else {
        assert ShortEdits(log[..i + 1]) == ShortEdits(log[..i]);
      }
    }
    assert log[..|log|] == log;
  }

  method DdlCurrentCounts(log: seq<Statement>) returns (tables: nat, foreignKeys: nat)
    ensures tables == |Live(log)|
    ensures foreignKeys == |ShortLive(log)|
  {
    var live := LiveTables(log);
    var current := ShortForeignKeys(log);
    var kept := map name <- current | current[name].0 in live && current[name].1 in live :: current[name];
    assert kept.Keys == ShortLive(log);
    tables, foreignKeys := |live|, |kept|;
    assert |kept| == |kept.Keys|;
  }

  function ShortLive(log: seq<Statement>): set<string> {
    var current := AfterEdits(map[], ShortEdits(log));
    set name <- current | current[name].0 in Live(log) && current[name].1 in Live(log)
  }

  function FullLive(log: seq<Statement>): set<string> {
    var current := AfterEdits(map[], FullEdits(log));
    set name <- current | current[name].child in Live(log) && current[name].parent in Live(log)
  }

  // ---- Both implementations over the same operations ----

  /** Where an edit comes from: operation `at` of an ALTER. */
  datatype Origin = Origin(child: string, ops: seq<Op>, at: nat)

  function Origins(log: seq<Statement>): seq<Origin> {
    if log == [] then []
    else
      var s := log[|log| - 1];
      Origins(log[..|log| - 1]) + if s.AlterTable? then seq(|s.ops|, i requires 0 <= i < |s.ops| => Origin(s.table, s.ops, i)) else []
  }

  lemma {:induction false} EditsHaveOrigins(log: seq<Statement>)
    ensures |Origins(log)| == |FullEdits(log)| == |ShortEdits(log)|
    ensures forall i :: 0 <= i < |Origins(log)| ==>
              var o := Origins(log)[i];
              && o.at < |o.ops|
              && FullEdits(log)[i] == FullEdit(o.child, o.ops[o.at])
              && ShortEdits(log)[i] == ShortEdit(o.child, o.ops, o.ops[o.at])
  {
    if log != [] {
      EditsHaveOrigins(log[..|log| - 1]);
    }
  }

  /** The last addition of a surviving name has the parent that the first addition in the same ALTER has. */
  ghost predicate LastParentIsFirst(log: seq<Statement>, name: string) {
    forall i :: IsLast(FullEdits(log), name, i) && i < |Origins(log)| ==>
                  var o := Origins(log)[i];
                  o.at < |o.ops| && o.ops[o.at].AddForeignKey? ==> o.ops[o.at].parent == FirstParent(o.ops, name)
  }

  ghost predicate SameForeignKey(log: seq<Statement>, name: string) {
    var full, short := AfterEdits(map[], FullEdits(log)), AfterEdits(map[], ShortEdits(log));
    && (name in full <==> name in short)
    && (name in full ==> short[name] == (full[name].child, full[name].parent))
  }

  /** The two dictionaries always hold the same names, and agree on a name exactly if its last addition has the first parent. */
  lemma ForeignKeysAgree(log: seq<Statement>, name: string)
    ensures name in AfterEdits(map[], FullEdits(log)) <==> name in AfterEdits(map[], ShortEdits(log))
    ensures SameForeignKey(log, name) <==> LastParentIsFirst(log, name)
  {
    var full, short := FullEdits(log), ShortEdits(log);
    EditsHaveOrigins(log);
    LastEditWins(map[], full, name);
    LastEditWins(map[], short, name);
    forall i | 0 <= i < |full| ensures Touches(full[i], name) <==> Touches(short[i], name) {
      var o := Origins(log)[i];
    }
    if i :| IsLast(full, name, i) {
      assert IsLast(short, name, i);
      var o := Origins(log)[i];
      forall j | IsLast(full, name, j) ensures i == j {}
      assert full[i] == FullEdit(o.child, o.ops[o.at]) && short[i] == ShortEdit(o.child, o.ops, o.ops[o.at]);
    } else {
      assert Untouched(short, name);
    }
  }

  predicate AddedOnce(ops: seq<Op>) {
    forall i, j :: 0 <= i < j < |ops| && ops[i].AddForeignKey? && ops[j].AddForeignKey? ==> ops[i].name != ops[j].name
  }

  lemma {:induction false} FirstParentFound(ops: seq<Op>, i: nat)
    requires i < |ops| && ops[i].AddForeignKey?
    requires forall j :: 0 <= j < i ==> !(ops[j].AddForeignKey? && ops[j].name == ops[i].name)
    ensures FirstParent(ops, ops[i].name) == ops[i].parent
  {
    if i > 0 {
      FirstParentFound(ops[1..], i - 1);
    }
  }

  lemma {:induction false} OriginsAreAlters(log: seq<Statement>)
    ensures forall o <- Origins(log) :: exists s <- log :: s == AlterTable(o.child, o.ops)
  {
    if log != [] {
      OriginsAreAlters(log[..|log| - 1]);
      forall o <- Origins(log) ensures exists s <- log :: s == AlterTable(o.child, o.ops) {
        if o in Origins(log[..|log| - 1]) {
          var s :| s in log[..|log| - 1] && s == AlterTable(o.child, o.ops);
          assert s in log;
        } else {
          assert log[|log| - 1] in log;
        }
      }
    }
  }

  /** If no ALTER adds a name twice, both implementations have the same live foreign keys, so the counts agree. */
  lemma CountsAgree(log: seq<Statement>)
    requires forall s <- log | s.AlterTable? :: AddedOnce(s.ops)
    ensures forall name :: SameForeignKey(log, name)
    ensures ShortLive(log) == FullLive(log)
  {
    forall name ensures SameForeignKey(log, name) {
      EditsHaveOrigins(log);
      OriginsAreAlters(log);
      forall i | IsLast(FullEdits(log), name, i) && i < |Origins(log)|
        ensures var o := Origins(log)[i];
                o.at < |o.ops| && o.ops[o.at].AddForeignKey? ==> o.ops[o.at].parent == FirstParent(o.ops, name)
      {
        var o := Origins(log)[i];
        assert o in Origins(log);
        if o.ops[o.at].AddForeignKey? {
          FirstParentFound(o.ops, o.at);
        }
      }
      ForeignKeysAgree(log, name);
    }
    var full, short := AfterEdits(map[], FullEdits(log)), AfterEdits(map[], ShortEdits(log));
    forall name ensures name in ShortLive(log) <==> name in FullLive(log) {
      assert SameForeignKey(log, name);
    }
  }

  function Readding(fk: string, a: string, b: string): seq<Op> {
    [AddForeignKey(fk, ["c"], a, ["id"], "", ""), DropForeignKey(fk), AddForeignKey(fk, ["c"], b, ["id"], "", "")]
  }

  lemma EditsAppend(log: seq<Statement>, s: Statement)
    ensures FullEdits(log + [s]) == FullEdits(log) + if s.AlterTable? then FullEditsOf(s.table, s.ops) else []
    ensures ShortEdits(log + [s]) == ShortEdits(log) + if s.AlterTable? then ShortEditsOf(s.table, s.ops) else []
  {
    assert (log + [s])[..|log|] == log;
  }

  lemma LiveAppend(log: seq<Statement>, s: Statement)
    ensures Created(log + [s]) == Created(log) + if s.CreateTable? then {s.table} else {}
    ensures Dropped(log + [s]) == Dropped(log) + if s.DropTable? then {s.table} else {}
  {
    assert forall x :: x in log + [s] <==> x in log || x == s;
  }

  /**
   After any log that leaves three tables: add a key of `child` to `a`, drop it and add it again to `b` in one ALTER, then
   drop `a`. Replay keeps the key; the count has lost it.
   */
  lemma ReaddedKeyIsMiscounted(log: seq<Statement>, fk: string, a: string, b: string, child: string)
    requires a != b && a != child && {a, b, child} <= Live(log)
    ensures var longer := log + [AlterTable(child, Readding(fk, a, b))] + [DropTable(a)];
            && Live(longer) == Live(log) - {a}
            && fk in FullLive(longer) && fk !in ShortLive(longer)
  {
    var ops := Readding(fk, a, b);
    var alter, drop := AlterTable(child, ops), DropTable(a);
    EditsAppend(log, alter);
    LiveAppend(log, alter);
    EditsAppend(log + [alter], drop);
    LiveAppend(log + [alter], drop);
    ReaddedLast(FullEdits(log), FullEditsOf(child, ops), fk);
    ReaddedLast(ShortEdits(log), ShortEditsOf(child, ops), fk);
  }

  lemma ReaddedLast<T>(before: seq<Edit<T>>, edits: seq<Edit<T>>, fk: string)
    requires |edits| == 3 && edits[2].Put? && Touches(edits[2], fk)
    ensures fk in AfterEdits(map[], before + edits) && AfterEdits(map[], before + edits)[fk] == edits[2].value
  {
    assert IsLast(before + edits, fk, |before| + 2);
    LastEditWins(map[], before + edits, fk);
  }

  // ---- One table through its ALTERs ----

  function NameAt(names: seq<string>, name: string): (i: nat)
    ensures i <= |names| && (i < |names| ==> names[i] == name) && forall j :: 0 <= j < i ==> names[j] != name
  {
    if names == [] then 0 else if names[0] == name then 0 else 1 + NameAt(names[1..], name)
  }

  function WithoutAt<T>(s: seq<T>, i: nat): seq<T> {
    if i < |s| then s[..i] + s[i + 1..] else s
  }

  function NamesOf(uniques: seq<Unique>): (names: seq<string>)
    ensures |names| == |uniques| && forall i :: 0 <= i < |names| ==> names[i] == uniques[i].name
  {
    seq(|uniques|, i requires 0 <= i < |uniques| => uniques[i].name)
  }

  function ColumnEdit(op: Op): Edit<Column> {
    match op
    case DefineColumn(name, column) => Put(name, column)
    case DropColumn(name) => Remove(name)
    case _ => Keep
  }

  function UniquesAfter(uniques: seq<Unique>, op: Op): seq<Unique> {
    match op
    case AddUnique(name, columns) => uniques + [Unique(name, columns)]
    case DropIndex(name) => WithoutAt(uniques, NameAt(NamesOf(uniques), name))
    case _ => uniques
  }

  function NamesAfter(names: seq<string>, op: Op): seq<string> {
    match op
    case AddUnique(name, _) => names + [name]
    case DropIndex(name) => WithoutAt(names, NameAt(names, name))
    case _ => names
  }

  /** One operation in the order of the text. */
  function Apply(t: Table, op: Op): Table {
    Table(AfterEdit(t.columns, ColumnEdit(op)), UniquesAfter(t.uniques, op), NamesAfter(t.constraintNames, op))
  }

  function Replay(t: Table, ops: seq<Op>): Table {
    if ops == [] then t else Apply(Replay(t, ops[..|ops| - 1]), ops[|ops| - 1])
  }

  /** The parallel lists of names and column lists as one list of pairs. */
  function Zip(names: seq<string>, columns: seq<seq<string>>): (z: seq<Unique>)
    requires |names| == |columns|
    ensures |z| == |names| && NamesOf(z) == names
  {
    seq(|names|, i requires 0 <= i < |names| => Unique(names[i], columns[i]))
  }

  lemma {:induction false} ZipWithout(names: seq<string>, columns: seq<seq<string>>, i: nat)
    requires |names| == |columns| && i < |names|
    ensures Zip(names[..i] + names[i + 1..], columns[..i] + columns[i + 1..]) == WithoutAt(Zip(names, columns), i)
  {}

  lemma {:induction false} ZipAppend(names: seq<string>, columns: seq<seq<string>>, name: string, list: seq<string>)
    requires |names| == |columns|
    ensures Zip(names + [name], columns + [list]) == Zip(names, columns) + [Unique(name, list)]
  {}

  class TableModel {
    var columns: map<string, Column>
    var uniqueNames: seq<string>
    var uniques: seq<seq<string>>
    var constraintNames: seq<string>

    ghost predicate Aligned()
      reads this
    {
      |uniqueNames| == |uniques|
    }

    ghost function View(): Table
      requires Aligned()
      reads this
    {
      Table(columns, Zip(uniqueNames, uniques), constraintNames)
    }

    constructor (definition: Table)
      ensures Aligned() && View() == definition
    {
      columns := definition.columns;
      uniqueNames := NamesOf(definition.uniques);
      uniques := seq(|definition.uniques|, i requires 0 <= i < |definition.uniques| => definition.uniques[i].columns);
      constraintNames := definition.constraintNames;
    }

    method EditUniques(op: Op)
      requires Aligned()
      modifies this
      ensures Aligned() && columns == old(columns)
      ensures Zip(uniqueNames, uniques) == UniquesAfter(old(Zip(uniqueNames, uniques)), op)
      ensures constraintNames == NamesAfter(old(constraintNames), op)
    {
      if op.DropIndex? {
        var index := NameAt(uniqueNames, op.name);
        if index < |uniqueNames| {
          ZipWithout(uniqueNames, uniques, index);
          uniqueNames := uniqueNames[..index] + uniqueNames[index + 1..];
          uniques := uniques[..index] + uniques[index + 1..];
        }
        index := NameAt(constraintNames, op.name);
        if index < |constraintNames| {
          constraintNames := constraintNames[..index] + constraintNames[index + 1..];
        }
      } else if op.AddUnique? {
        ZipAppend(uniqueNames, uniques, op.name, op.columns);
        uniqueNames := uniqueNames + [op.name];
        uniques := uniques + [op.columns];
        constraintNames := constraintNames + [op.name];
      }
    }

    method EditColumns(op: Op)
      modifies this`columns
      ensures columns == AfterEdit(old(columns), ColumnEdit(op))
    {
      if op.DropColumn? {
        columns := columns - {op.name};
      } else if op.DefineColumn? {
        columns := columns[op.name := op.column];
      }
    }

    /** First all index operations, then all column operations, and still the table the operations give in order. */
    method ApplyAlter(ops: seq<Op>)
      requires Aligned()
      modifies this
      ensures Aligned() && View() == Replay(old(View()), ops)
    {
      ghost var start := View();
      for i := 0 to |ops|
        invariant Aligned() && columns == old(columns)
        invariant Zip(uniqueNames, uniques) == Replay(start, ops[..i]).uniques
        invariant constraintNames == Replay(start, ops[..i]).constraintNames
      {
        ReplayOneMore(start, ops, i);
        EditUniques(ops[i]);
      }
      for i := 0 to |ops|
        invariant Aligned() && columns == Replay(start, ops[..i]).columns
        invariant Zip(uniqueNames, uniques) == Replay(start, ops[..|ops|]).uniques
        invariant constraintNames == Replay(start, ops[..|ops|]).constraintNames
      {
        ReplayOneMore(start, ops, i);
        EditColumns(ops[i]);
      }
      assert ops[..|ops|] == ops;
    }
  }

  lemma {:induction false} ReplayOneMore(t: Table, ops: seq<Op>, i: nat)
    requires i < |ops|
    ensures Replay(t, ops[..i + 1]) == Apply(Replay(t, ops[..i]), ops[i])
  {
    assert ops[..i + 1][..i] == ops[..i];
  }

  /** All operations on one table, in the order of the log. */
  function OpsOn(log: seq<Statement>, table: string): seq<Op> {
    if log == [] then []
    else
      var s := log[|log| - 1];
      OpsOn(log[..|log| - 1], table) + if Alters(s, table) then s.ops else []
  }

  lemma {:induction false} ReplayConcat(t: Table, a: seq<Op>, b: seq<Op>)
    ensures Replay(t, a + b) == Replay(Replay(t, a), b)
  {
    if b == [] {
      assert a + b == a;
    } else {
      assert (a + b)[..|a + b| - 1] == a + b[..|b| - 1];
      ReplayConcat(t, a, b[..|b| - 1]);
    }
  }

  /** Every table ends as replaying its own operations leaves it, whatever happens to the others. */
  method ApplyAlterTableColumns(log: seq<Statement>, tables: map<string, TableModel>)
    requires forall a <- tables, b <- tables :: a != b ==> tables[a] != tables[b]
    requires forall t <- tables :: tables[t].Aligned()
    modifies tables.Values
    ensures forall t <- tables :: tables[t].Aligned() && tables[t].View() == Replay(old(tables[t].View()), OpsOn(log, t))
  {
    for i := 0 to |log|
      invariant forall t <- tables :: tables[t].Aligned() && tables[t].View() == Replay(old(tables[t].View()), OpsOn(log[..i], t))
    {
      forall t <- tables
        ensures Replay(old(tables[t].View()), OpsOn(log[..i + 1], t))
             == if Alters(log[i], t) then Replay(Replay(old(tables[t].View()), OpsOn(log[..i], t)), log[i].ops)
                else Replay(old(tables[t].View()), OpsOn(log[..i], t))
      {
        OpsStep(log, i, t, old(tables[t].View()));
      }
      ApplyStatement(log[i], tables);
    }
    assert log[..|log|] == log;
  }

  /** One statement: the table it alters is replayed, all others stay. */
  method ApplyStatement(s: Statement, tables: map<string, TableModel>)
    requires forall a <- tables, b <- tables :: a != b ==> tables[a] != tables[b]
    requires forall t <- tables :: tables[t].Aligned()
    modifies tables.Values
    ensures forall t <- tables :: tables[t].Aligned()
    ensures forall t <- tables :: tables[t].View() == if Alters(s, t) then Replay(old(tables[t].View()), s.ops) else old(tables[t].View())
  {
    if s.AlterTable? && s.table in tables {
      tables[s.table].ApplyAlter(s.ops);
    }
  }

  lemma OpsStep(log: seq<Statement>, i: nat, table: string, start: Table)
    requires i < |log|
    ensures var before := Replay(start, OpsOn(log[..i], table));
            Replay(start, OpsOn(log[..i + 1], table)) == if Alters(log[i], table) then Replay(before, log[i].ops) else before
  {
    assert log[..i + 1][..i] == log[..i];
    if Alters(log[i], table) {
      ReplayConcat(start, OpsOn(log[..i], table), log[i].ops);
    } else {
      assert OpsOn(log[..i], table) + [] == OpsOn(log[..i], table);
    }
  }

  function LastDefinition(log: seq<Statement>, table: string): Option<Table> {
    if log == [] then None
    else
      var s := log[|log| - 1];
      if Creates(s, table) then Some(s.definition) else LastDefinition(log[..|log| - 1], table)
  }

  /** The static model: all creations, then all alterations, then all drops. */
  function Static(log: seq<Statement>, table: string): Option<Table> {
    var d := LastDefinition(log, table);
    if table in Dropped(log) || d.None? then None else Some(Replay(d.value, OpsOn(log, table)))
  }

  lemma {:induction false} DefinedIfCreated(log: seq<Statement>, table: string)
    ensures LastDefinition(log, table).Some? <==> table in Created(log)
  {
    if log != [] {
      DefinedIfCreated(log[..|log| - 1], table);
      assert log == log[..|log| - 1] + [log[|log| - 1]];
    }
  }

  method StaticModel(log: seq<Statement>) returns (tables: map<string, TableModel>)
    ensures tables.Keys == Live(log)
    ensures forall t <- tables :: tables[t].Aligned() && Static(log, t) == Some(tables[t].View())
  {
    tables := map[];
    for i := 0 to |log|
      invariant tables.Keys == Created(log[..i])
      invariant forall t <- tables :: fresh(tables[t]) && tables[t].Aligned() && LastDefinition(log[..i], t) == Some(tables[t].View())
      invariant forall a <- tables, b <- tables :: a != b ==> tables[a] != tables[b]
    {
      assert log[..i + 1] == log[..i] + [log[i]];
      if log[i].CreateTable? {
        var created := new TableModel(log[i].definition);
        tables := tables[log[i].table := created];
      }
    }
    assert log[..|log|] == log;
    ApplyAlterTableColumns(log, tables);
    tables := tables - Dropped(log);
  }

  /** Replaying the log statement by statement. */
  function Sequential(log: seq<Statement>, table: string): Option<Table> {
    if log == [] then None
    else
      var before, s := Sequential(log[..|log| - 1], table), log[|log| - 1];
      if Creates(s, table) then Some(s.definition)
      else if Drops(s, table) then None
      else if Alters(s, table) && before.Some? then Some(Replay(before.value, s.ops))
      else before
  }

  /** No creation of the table comes after its last drop. */
  ghost predicate NotRecreated(log: seq<Statement>, table: string) {
    forall i :: 0 <= i < |log| && Drops(log[i], table) && (forall j :: i < j < |log| ==> !Drops(log[j], table)) ==>
                  forall j :: i < j < |log| ==> !Creates(log[j], table)
  }

  /** Nothing alters the table before its last creation. */
  ghost predicate CreatedFirst(log: seq<Statement>, table: string) {
    forall i, j :: 0 <= i < j < |log| && Alters(log[i], table) ==> !Creates(log[j], table)
  }

  lemma {:induction false} SequentialLive(log: seq<Statement>, table: string)
    ensures Sequential(log, table).Some? <==>
              exists i :: 0 <= i < |log| && Creates(log[i], table) && forall j :: i < j < |log| ==> !Drops(log[j], table)
  {
    if log != [] {
      var n := |log| - 1;
      var before := log[..n];
      SequentialLive(before, table);
      assert forall i :: 0 <= i < n ==> before[i] == log[i];
      if Sequential(before, table).Some? && !Creates(log[n], table) && !Drops(log[n], table) {
        var i :| 0 <= i < n && Creates(before[i], table) && forall j :: i < j < n ==> !Drops(before[j], table);
        assert Creates(log[i], table);
      }
    }
  }

  lemma LastDrop(log: seq<Statement>, table: string) returns (i: nat)
    requires table in Dropped(log)
    ensures i < |log| && Drops(log[i], table) && forall j :: i < j < |log| ==> !Drops(log[j], table)
  {
    var n := |log| - 1;
    if Drops(log[n], table) {
      i := n;
    } else {
      assert log == log[..n] + [log[n]];
      i := LastDrop(log[..n], table);
    }
  }

  /** Created-minus-dropped is what replay leaves, exactly for the tables that are not re-created after their last drop. */
  lemma {:induction false} LiveIsReplayed(log: seq<Statement>, table: string)
    ensures (table in Live(log) <==> Sequential(log, table).Some?) <==> NotRecreated(log, table)
  {
    SequentialLive(log, table);
    if table in Dropped(log) {
      var i := LastDrop(log, table);
      if j :| i < j < |log| && Creates(log[j], table) {
        assert Sequential(log, table).Some?;
        assert !NotRecreated(log, table);
      } else {
        assert Sequential(log, table).None?;
        forall k | 0 <= k < |log| && Drops(log[k], table) && (forall j :: k < j < |log| ==> !Drops(log[j], table)) ensures k == i {}
      }
    } else {
      forall j | 0 <= j < |log| ensures !Drops(log[j], table) { assert log[j] in log; }
      if table in Created(log) {
        var s :| s in log && Creates(s, table);
        var i :| 0 <= i < |log| && log[i] == s;
      } else {
        forall j | 0 <= j < |log| ensures !Creates(log[j], table) { assert log[j] in log; }
      }
    }
  }

  lemma {:induction false} NoOpsBeforeCreation(log: seq<Statement>, table: string)
    requires forall i :: 0 <= i < |log| ==> !Alters(log[i], table)
    ensures OpsOn(log, table) == []
  {
    if log != [] {
      NoOpsBeforeCreation(log[..|log| - 1], table);
    }
  }

  lemma {:induction false} DefinitionThenOps(log: seq<Statement>, table: string)
    requires table !in Dropped(log) && CreatedFirst(log, table)
    ensures Sequential(log, table) == Static(log, table)
  {
    if log != [] {
      var n := |log| - 1;
      var before, s := log[..n], log[n];
      assert log == before + [s];
      DefinitionThenOps(before, table);
      if Creates(s, table) {
        NoOpsBeforeCreation(before, table);
        assert OpsOn(log, table) == [];
      } else if Alters(s, table) {
        if LastDefinition(before, table).Some? {
          ReplayConcat(LastDefinition(before, table).value, OpsOn(before, table), s.ops);
        }
      } else {
        assert OpsOn(log, table) == OpsOn(before, table);
      }
    }
  }

  /** The operations on a table after its last creation. */
  function OpsSince(log: seq<Statement>, table: string): seq<Op> {
    if log == [] then []
    else
      var s := log[|log| - 1];
      if Creates(s, table) then []
      else OpsSince(log[..|log| - 1], table) + if Alters(s, table) then s.ops else []
  }

  /** A table that is never dropped is replayed from its last creation on. */
  lemma {:induction false} SequentialSince(log: seq<Statement>, table: string)
    requires table !in Dropped(log)
    ensures var d := LastDefinition(log, table);
            Sequential(log, table) == if d.None? then None else Some(Replay(d.value, OpsSince(log, table)))
  {
    if log != [] {
      var n := |log| - 1;
      var before, s := log[..n], log[n];
      assert log == before + [s];
      SequentialSince(before, table);
      if Alters(s, table) {
        if LastDefinition(before, table).Some? {
          ReplayConcat(LastDefinition(before, table).value, OpsSince(before, table), s.ops);
        }
      } else if !Creates(s, table) {
        assert OpsSince(log, table) == OpsSince(before, table);
      }
    }
  }

  /** The operations before the last creation make no difference to what the later ones leave. */
  predicate EarlyOpsVanish(log: seq<Statement>, table: string) {
    var d := LastDefinition(log, table);
    d.Some? ==> Replay(d.value, OpsOn(log, table)) == Replay(d.value, OpsSince(log, table))
  }

  /**
   Columns, uniques and constraint names of the static model are those of the replay, exactly if the table is dropped and
   not re-created afterwards, or is never dropped and its operations before the last creation would vanish.
   */
  lemma {:induction false} StaticExactly(log: seq<Statement>, table: string)
    ensures Static(log, table) == Sequential(log, table) <==>
              if table in Dropped(log) then NotRecreated(log, table) else EarlyOpsVanish(log, table)
  {
    if table in Dropped(log) {
      LiveIsReplayed(log, table);
    } else {
      SequentialSince(log, table);
    }
  }

  /** In particular if nothing alters the table before its last creation. */
  lemma StaticIsReplayed(log: seq<Statement>, table: string)
    requires NotRecreated(log, table) && (table in Dropped(log) || CreatedFirst(log, table))
    ensures Static(log, table) == Sequential(log, table)
  {
    if table in Dropped(log) {
      StaticExactly(log, table);
    } else {
      DefinitionThenOps(log, table);
    }
  }

  /** Altering a table and creating it afterwards: the static model applies the alteration, replay does not. */
  lemma EarlyAlterationBreaksStatic(table: string, definition: Table, name: string, columns: seq<string>)
    ensures var log := [AlterTable(table, [AddUnique(name, columns)]), CreateTable(table, definition)];
            && NotRecreated(log, table) && Sequential(log, table) == Some(definition)
            && Static(log, table) == Some(Apply(definition, AddUnique(name, columns)))
            && Static(log, table) != Sequential(log, table)
  {
    var op := AddUnique(name, columns);
    var alter, create := AlterTable(table, [op]), CreateTable(table, definition);
    var log := [alter, create];
    assert log[..1] == [alter] && [alter][..0] == [];
    assert OpsOn([alter], table) == [op] && OpsOn(log, table) == [op];
    assert [op][..0] == [] && Replay(definition, [op]) == Apply(definition, op);
    assert |Apply(definition, op).uniques| == |definition.uniques| + 1;
  }

  // ---- What the replay of one table means ----

  function ColumnEdits(ops: seq<Op>): seq<Edit<Column>> {
    seq(|ops|, i requires 0 <= i < |ops| => ColumnEdit(ops[i]))
  }

  /** A column is there exactly if its last operation defines it, with that definition. */
  lemma {:induction false} ColumnsAreLastEdits(t: Table, ops: seq<Op>)
    ensures Replay(t, ops).columns == AfterEdits(t.columns, ColumnEdits(ops))
  {
    if ops != [] {
      ColumnsAreLastEdits(t, ops[..|ops| - 1]);
      assert ColumnEdits(ops)[..|ops| - 1] == ColumnEdits(ops[..|ops| - 1]);
    }
  }

  /** Every unique constraint is registered in the list of all constraint names, as often as it occurs. */
  ghost predicate Registered(t: Table) {
    multiset(NamesOf(t.uniques)) <= multiset(t.constraintNames)
  }

  lemma {:induction false} WithoutAtCounts(names: seq<string>, name: string)
    ensures multiset(WithoutAt(names, NameAt(names, name))) == multiset(names) - multiset{name}
  {
    var i := NameAt(names, name);
    if i < |names| {
      RemovalCounts(names[..i], name, names[i + 1..]);
      assert names == names[..i] + [name] + names[i + 1..];
    } else {
      AbsentCounts(names, name);
    }
  }

  lemma AbsentCounts(names: seq<string>, name: string)
    requires forall k :: 0 <= k < |names| ==> names[k] != name
    ensures multiset(names) == multiset(names) - multiset{name}
  {
    assert name !in names;
    assert multiset(names)[name] == 0;
  }

  lemma RemovalCounts(a: seq<string>, name: string, b: seq<string>)
    ensures multiset(a + b) == multiset(a + [name] + b) - multiset{name}
  {
    assert multiset(a + [name] + b) == multiset(a) + multiset{name} + multiset(b);
    assert multiset(a + b) == multiset(a) + multiset(b);
  }

  lemma {:induction false} NamesFollow(uniques: seq<Unique>, op: Op)
    ensures NamesOf(UniquesAfter(uniques, op)) == NamesAfter(NamesOf(uniques), op)
  {}

  lemma {:induction false} NamesStep(some: seq<string>, all: seq<string>, op: Op)
    requires multiset(some) <= multiset(all)
    ensures multiset(NamesAfter(some, op)) <= multiset(NamesAfter(all, op))
  {
    if op.DropIndex? {
      WithoutAtCounts(some, op.name);
      WithoutAtCounts(all, op.name);
    }
  }

  lemma {:induction false} UniquesStayRegistered(t: Table, ops: seq<Op>)
    requires Registered(t)
    ensures Registered(Replay(t, ops))
  {
    if ops != [] {
      var before, op := Replay(t, ops[..|ops| - 1]), ops[|ops| - 1];
      UniquesStayRegistered(t, ops[..|ops| - 1]);
      NamesFollow(before.uniques, op);
      NamesStep(NamesOf(before.uniques), before.constraintNames, op);
    }
  }

  predicate Distinct(uniques: seq<Unique>) {
    forall i, j :: 0 <= i < j < |uniques| ==> uniques[i].name != uniques[j].name
  }

  function UniqueEdit(op: Op): Edit<seq<string>> {
    match op
    case AddUnique(name, columns) => Put(name, columns)
    case DropIndex(name) => Remove(name)
    case _ => Keep
  }

  function UniqueEdits(ops: seq<Op>): seq<Edit<seq<string>>> {
    seq(|ops|, i requires 0 <= i < |ops| => UniqueEdit(ops[i]))
  }

  /** No constraint is added under a name that is still in use. */
  ghost predicate AddsAreFresh(t: Table, ops: seq<Op>) {
    forall i :: 0 <= i < |ops| && ops[i].AddUnique? ==> ops[i].name !in NamesOf(Replay(t, ops[..i]).uniques)
  }

  /** The list of pairs holds exactly the entries of a dictionary. */
  ghost predicate Lists(uniques: seq<Unique>, m: map<string, seq<string>>) {
    Distinct(uniques) && forall u :: u in uniques <==> u.name in m && m[u.name] == u.columns
  }

  lemma {:induction false} WithoutAtElements(uniques: seq<Unique>, i: nat)
    requires Distinct(uniques) && i < |uniques|
    ensures forall u :: u in WithoutAt(uniques, i) <==> u in uniques && u.name != uniques[i].name
  {
    forall u | u in uniques && u.name != uniques[i].name ensures u in WithoutAt(uniques, i) {
      var k :| 0 <= k < |uniques| && uniques[k] == u;
      assert u in if k < i then uniques[..i] else uniques[i + 1..];
    }
  }

  lemma {:induction false} DropKeepsPairs(uniques: seq<Unique>, name: string)
    requires Distinct(uniques)
    ensures var after := WithoutAt(uniques, NameAt(NamesOf(uniques), name));
            Distinct(after) && forall u :: u in after <==> u in uniques && u.name != name
  {
    var names := NamesOf(uniques);
    var i := NameAt(names, name);
    if i < |uniques| {
      WithoutAtElements(uniques, i);
    } else {
      forall k | 0 <= k < |uniques| ensures uniques[k].name != name { assert names[k] != name; }
    }
  }

  lemma {:induction false} AddKeepsPairs(uniques: seq<Unique>, u: Unique)
    requires Distinct(uniques) && u.name !in NamesOf(uniques)
    ensures Distinct(uniques + [u]) && forall v <- uniques :: v.name != u.name
  {
    forall k | 0 <= k < |uniques| ensures uniques[k].name != u.name {
      assert NamesOf(uniques)[k] == uniques[k].name;
    }
  }

  lemma {:induction false} ListsStep(uniques: seq<Unique>, m: map<string, seq<string>>, op: Op)
    requires Lists(uniques, m) && (op.AddUnique? ==> op.name !in NamesOf(uniques))
    ensures Lists(UniquesAfter(uniques, op), AfterEdit(m, UniqueEdit(op)))
  {
    match op
    case AddUnique(name, columns) => AddKeepsPairs(uniques, Unique(name, columns));
    case DropIndex(name) => DropKeepsPairs(uniques, name);
    case _ =>
  }

  /** If names are not reused while in use, name and column lists stay paired: they are the dictionary of the last edits. */
  lemma {:induction false} UniquesAreLastEdits(t: Table, ops: seq<Op>, m: map<string, seq<string>>)
    requires Lists(t.uniques, m) && AddsAreFresh(t, ops)
    ensures Lists(Replay(t, ops).uniques, AfterEdits(m, UniqueEdits(ops)))
  {
    if ops != [] {
      var n := |ops| - 1;
      assert forall i | 0 <= i < n :: ops[..n][..i] == ops[..i];
      UniquesAreLastEdits(t, ops[..n], m);
      ListsStep(Replay(t, ops[..n]).uniques, AfterEdits(m, UniqueEdits(ops[..n])), ops[n]);
      assert UniqueEdits(ops)[..n] == UniqueEdits(ops[..n]);
    }
  }

  // ---- Only keys between live tables count ----

  /** Never counted: a key whose table or whose referenced table was dropped or never created. */
  lemma DroppedTablesHaveNoKeys(log: seq<Statement>, name: string)
    ensures name in FullLive(log) <==>
              var m := AfterEdits(map[], FullEdits(log));
              && name in m
              && m[name].child in Created(log) && m[name].child !in Dropped(log)
              && m[name].parent in Created(log) && m[name].parent !in Dropped(log)
    ensures name in ShortLive(log) <==>
              var m := AfterEdits(map[], ShortEdits(log));
              && name in m
              && m[name].0 in Created(log) && m[name].0 !in Dropped(log)
              && m[name].1 in Created(log) && m[name].1 !in Dropped(log)
  {}

  /** The child of a counted key is the table of the ALTER that added it last. */
  lemma CountedKeyIsFromItsTable(log: seq<Statement>, name: string, i: nat)
    requires IsLast(FullEdits(log), name, i) && i < |Origins(log)|
    ensures name in FullLive(log) ==> Origins(log)[i].child in Live(log) && exists s <- log :: s == AlterTable(Origins(log)[i].child, Origins(log)[i].ops)
    ensures name in ShortLive(log) ==> Origins(log)[i].child in Live(log)
  {
    EditsHaveOrigins(log);
    OriginsAreAlters(log);
    LastEditWins(map[], FullEdits(log), name);
    var o := Origins(log)[i];
    assert o in Origins(log);
    forall j | 0 <= j < |FullEdits(log)| ensures Touches(FullEdits(log)[j], name) <==> Touches(ShortEdits(log)[j], name) {
      var oj := Origins(log)[j];
    }
    assert IsLast(ShortEdits(log), name, i);
    LastEditWins(map[], ShortEdits(log), name);
  }
}
