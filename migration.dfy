/** Schema migration: the scripts `onUpgrade` and `onDowngrade` collect,
    version step by version step, from the migration plan or from a
    migration file among the assets, and the splitter that cuts a
    migration file into statements. */
module Migration {
  import opened Types
  import opened Strings
  import opened Schema
  import opened Ddl

  /** The three kinds of migration step. */
  datatype MigrationStep =
    | RenameTable(oldTableName: string, newTableName: string)
    | AddTable(tableName: string)
    | RemoveTable(tableName: string)

  /** A step a wrapper can turn into a statement: every step except adding
      a table the wrapper does not know. */
  predicate Known(tables: map<string, TableDef>, step: MigrationStep) {
    !step.AddTable? || step.tableName in tables
  }

  /** `getSQLScriptList`: every step yields a list of one script. `None`
      is the null script an AddTable step gets from `getCreateTableScript`
      for a table that is not registered. */
  function StepScripts(tables: map<string, TableDef>, step: MigrationStep): (r: seq<Option<string>>)
    ensures |r| == 1
    ensures r[0].Some? <==> Known(tables, step)
    ensures r[0].Some? ==> r[0].value != ""
  {
    match step
    case RenameTable(o, n) => [Some("ALTER TABLE " + o + " RENAME TO " + n)]
    case AddTable(name) => [if name in tables then Some(CreateTableScript(tables[name])) else None]
    case RemoveTable(name) => [Some("DROP TABLE " + name)]
  }

  /** What the innermost loop keeps of one step's list: the scripts that
      are neither null nor empty, in order. */
  function KeptOne(x: Option<string>): seq<string> {
    if x.Some? && x.value != "" then [x.value] else []
  }

  function Kept(xs: seq<Option<string>>): seq<string> {
    if xs == [] then [] else Kept(xs[..|xs| - 1]) + KeptOne(xs[|xs| - 1])
  }

  /** The filter keeps exactly the non-empty scripts and drops the rest. */
  lemma {:induction false} KeptSpec(xs: seq<Option<string>>)
    ensures var r := Kept(xs);
      |r| <= |xs| &&
      forall s :: s in r <==> s != "" && Some(s) in xs
  {
    if xs != [] {
      var init := xs[..|xs| - 1];
      KeptSpec(init);
      assert xs == init + [xs[|xs| - 1]];
    }
  }

  /** The scripts of a whole plan for one version step: each step's kept
      scripts, step after step. */
  function PlanScripts(tables: map<string, TableDef>, steps: seq<MigrationStep>): seq<string> {
    if steps == [] then []
    else PlanScripts(tables, steps[..|steps| - 1]) + Kept(StepScripts(tables, steps[|steps| - 1]))
  }

  /** The script of a step the wrapper can turn into a statement. */
  function StepScript(tables: map<string, TableDef>, step: MigrationStep): string
    requires Known(tables, step)
  {
    StepScripts(tables, step)[0].value
  }

  /** A plan's last step contributes its script, if it keeps one. */
  lemma PlanScriptsLast(tables: map<string, TableDef>, steps: seq<MigrationStep>)
    requires steps != []
    ensures Kept(StepScripts(tables, steps[|steps| - 1])) == KeptOne(StepScripts(tables, steps[|steps| - 1])[0])
    ensures PlanScripts(tables, steps)
      == PlanScripts(tables, steps[..|steps| - 1]) + KeptOne(StepScripts(tables, steps[|steps| - 1])[0])
  {
    var last := StepScripts(tables, steps[|steps| - 1]);
    assert last[..|last| - 1] == [];
  }

  lemma KeptKnown(tables: map<string, TableDef>, step: MigrationStep)
    requires Known(tables, step)
    ensures KeptOne(StepScripts(tables, step)[0]) == [StepScript(tables, step)]
  {
  }

  /** Unknown AddTable steps are skipped; every other step contributes its
      one statement, in plan order. */
  lemma {:induction false} PlanScriptsKnown(tables: map<string, TableDef>, steps: seq<MigrationStep>)
    requires forall k :: 0 <= k < |steps| ==> Known(tables, steps[k])
    ensures var r := PlanScripts(tables, steps);
      |r| == |steps| &&
      forall k :: 0 <= k < |steps| ==> r[k] == StepScript(tables, steps[k])
  {
    if steps != [] {
      var init, step := steps[..|steps| - 1], steps[|steps| - 1];
      PlanScriptsKnown(tables, init);
      PlanScriptsLast(tables, steps);
      KeptKnown(tables, step);
      var r, r0 := PlanScripts(tables, steps), PlanScripts(tables, init);
      assert r == r0 + [StepScript(tables, step)];
      forall k | 0 <= k < |steps| ensures r[k] == StepScript(tables, steps[k]) {
        if k < |init| {
          assert r[k] == r0[k] && init[k] == steps[k];
        }
      }
    }
  }

  /** An AddTable step for a table the wrapper does not know adds nothing. */
  lemma PlanScriptsUnknown(tables: map<string, TableDef>, steps: seq<MigrationStep>, name: string)
    requires name !in tables
    ensures PlanScripts(tables, steps + [AddTable(name)]) == PlanScripts(tables, steps)
  {
    var all := steps + [AddTable(name)];
    assert all[..|all| - 1] == steps;
    PlanScriptsLast(tables, all);
  }

  /** Planned scripts are never empty. */
  lemma {:induction false} PlanScriptsNonEmpty(tables: map<string, TableDef>, steps: seq<MigrationStep>)
    ensures forall s :: s in PlanScripts(tables, steps) ==> s != ""
  {
    if steps != [] {
      PlanScriptsNonEmpty(tables, steps[..|steps| - 1]);
      KeptSpec(StepScripts(tables, steps[|steps| - 1]));
    }
  }

  // ---------------------------------------------------------------------
  // Migration files

  /** The asset folder migration and create files are read from. */
  const SQLW_FOLDER := "SQLW/"

  /** The asset files a wrapper can open, by path, as lines of text. */
  type Assets = map<string, seq<string>>

  /** `String.format("%d-%d-%s.sql", i, j, databaseName)`. */
  function FileName(i: int, j: int, databaseName: string): string {
    IntToString(i) + "-" + IntToString(j) + "-" + databaseName + ".sql"
  }

  /** A string cut at its first dash: the part before the dash, which
      holds no dash, and the rest are determined by the whole. */
  lemma DashSplit(a: string, b: string, a': string, b': string)
    requires '-' !in a && '-' !in a'
    requires a + ['-'] + b == a' + ['-'] + b'
    ensures a == a' && b == b'
  {
    SplitFirst(a, '-', b);
    SplitFirst(a', '-', b');
    assert Split(a + ['-'] + b, '-')[0] == a;
    assert b == (a + ['-'] + b)[|a| + 1..];
    assert b' == (a' + ['-'] + b')[|a'| + 1..];
  }

  /** A file name as its dash-separated parts. */
  lemma FileNameParts(i: nat, j: nat, db: string)
    ensures FileName(i, j, db) == Digits(i) + ['-'] + (Digits(j) + ['-'] + (db + ".sql"))
    ensures '-' !in Digits(i) && '-' !in Digits(j)
  {
  }

  lemma SuffixCancels(db: string, db': string, suffix: string)
    requires db + suffix == db' + suffix
    ensures db == db'
  {
    assert db == (db + suffix)[..|db|];
    assert db' == (db' + suffix)[..|db'|];
  }

  /** Non-negative versions name distinct files: the two numbers are read
      back up to the first two dashes, whatever the database name holds. */
  lemma FileNameInjective(i: nat, j: nat, db: string, i': nat, j': nat, db': string)
    requires FileName(i, j, db) == FileName(i', j', db')
    ensures i == i' && j == j' && db == db'
  {
    FileNameParts(i, j, db);
    FileNameParts(i', j', db');
    DashSplit(Digits(i), Digits(j) + ['-'] + (db + ".sql"), Digits(i'), Digits(j') + ['-'] + (db' + ".sql"));
    DashSplit(Digits(j), db + ".sql", Digits(j'), db' + ".sql");
    DigitsRoundTrip(i);
    DigitsRoundTrip(i');
    DigitsRoundTrip(j);
    DigitsRoundTrip(j');
    SuffixCancels(db, db', ".sql");
  }

  /** No upgrade step reads a file some downgrade step reads. */
  lemma UpDownFilesDistinct(i: nat, k: nat, db: string)
    requires k >= 1
    ensures FileName(i, i + 1, db) != FileName(k, k - 1, db)
  {
    if FileName(i, i + 1, db) == FileName(k, k - 1, db) {
      FileNameInjective(i, i + 1, db, k, k - 1, db);
    }
  }

  // ---------------------------------------------------------------------
  // getSQLScript: a file cut into statements

  /** The statements of the remaining lines when `pending` holds the text
      read since the last terminator: each line is appended with a space,
      and a line ending with `;` closes the statement. */
  function Statements(lines: seq<string>, pending: string): seq<string>
    decreases |lines|
  {
    if lines == [] then []
    else
      var s := pending + lines[0] + " ";
      if EndsWith(lines[0], ";") then [s] + Statements(lines[1..], "")
      else Statements(lines[1..], s)
  }

  /** `getSQLScript` on a whole file. */
  function SqlScript(lines: seq<string>): seq<string> {
    Statements(lines, "")
  }

  /** The text after the last terminator, which `getSQLScript` drops. */
  function Leftover(lines: seq<string>, pending: string): string
    decreases |lines|
  {
    if lines == [] then pending
    else if EndsWith(lines[0], ";") then Leftover(lines[1..], "")
    else Leftover(lines[1..], pending + lines[0] + " ")
  }

  /** The lines, each followed by a space. */
  function Spaced(lines: seq<string>): string {
    if lines == [] then "" else lines[0] + " " + Spaced(lines[1..])
  }

  function Concat(xs: seq<string>): string {
    if xs == [] then "" else xs[0] + Concat(xs[1..])
  }

  /** The number of lines that end with `;`. */
  function Terminators(lines: seq<string>): nat {
    if lines == [] then 0 else (if EndsWith(lines[0], ";") then 1 else 0) + Terminators(lines[1..])
  }

  /** Splitting loses no text but the unterminated tail: the statements
      and the dropped tail, put back together, are the spaced lines. */
  lemma {:induction false} StatementsText(lines: seq<string>, pending: string)
    ensures Concat(Statements(lines, pending)) + Leftover(lines, pending) == pending + Spaced(lines)
    decreases |lines|
  {
    if lines != [] {
      var line, tail := lines[0], lines[1..];
      var s := pending + line + " ";
      assert Spaced(lines) == line + " " + Spaced(tail);
      var spaced := Spaced(tail);
      assert s + spaced == pending + (line + " " + spaced) by {
        assert forall a: string, b: string, c: string :: (a + b) + c == a + (b + c);
      }
      if EndsWith(line, ";") {
        StatementsText(tail, "");
        var rest := Statements(tail, "");
        ConcatCons(s, rest);
        assert "" + Spaced(tail) == Spaced(tail);
        var cat, left := Concat(rest), Leftover(tail, "");
        assert (s + cat) + left == s + (cat + left);
      } else {
        StatementsText(tail, s);
      }
    }
  }

  lemma ConcatCons(s: string, rest: seq<string>)
    ensures Concat([s] + rest) == s + Concat(rest)
  {
    assert ([s] + rest)[1..] == rest;
  }

  /** Every statement ends with the terminator and its space, and there is
      one statement per terminated line. */
  lemma {:induction false} StatementsShape(lines: seq<string>, pending: string)
    ensures var r := Statements(lines, pending);
      |r| == Terminators(lines) &&
      forall k :: 0 <= k < |r| ==> EndsWith(r[k], "; ")
    decreases |lines|
  {
    if lines != [] {
      var s := pending + lines[0] + " ";
      if EndsWith(lines[0], ";") {
        StatementsShape(lines[1..], "");
        assert s[|s| - 2..] == "; ";
      } else {
        StatementsShape(lines[1..], s);
      }
    }
  }

  /** Nothing is dropped exactly when the file ends with a terminated line
      (or, with nothing pending, is empty). */
  lemma {:induction false} LeftoverEmpty(lines: seq<string>, pending: string)
    ensures Leftover(lines, pending) == "" <==>
      if lines == [] then pending == "" else EndsWith(lines[|lines| - 1], ";")
    decreases |lines|
  {
    if lines != [] {
      var s := pending + lines[0] + " ";
      if EndsWith(lines[0], ";") {
        LeftoverEmpty(lines[1..], "");
      } else {
        LeftoverEmpty(lines[1..], s);
      }
    }
  }

  /** `getSQLScript`: reads the lines one by one, appending each with a
      space to the current statement and closing the statement at a line
      ending with `;`. */
  method GetSqlScript(lines: seq<string>) returns (script: seq<string>)
    ensures script == SqlScript(lines)
  {
    script := [];
    var statement := "";
    var i := 0;
    while i < |lines|
      invariant 0 <= i <= |lines|
      invariant script + Statements(lines[i..], statement) == SqlScript(lines)
    {
      var line := lines[i];
      assert lines[i..][1..] == lines[i + 1..];
      statement := statement + line + " ";
      if EndsWith(line, ";") {
        script := script + [statement];
        statement := "";
      }
      i := i + 1;
    }
  }

  /** `readAndGetSQLScript`: null for an empty file name; the statements of
      the asset file under the SQLW folder; no statements when the file
      cannot be opened. */
  function ReadSqlAsset(assets: Assets, fileName: string): (r: Option<seq<string>>)
    ensures r.None? <==> fileName == ""
  {
    if fileName == "" then None
    else if SQLW_FOLDER + fileName in assets then Some(SqlScript(assets[SQLW_FOLDER + fileName]))
    else Some([])
  }

  method ReadAndGetSqlScript(assets: Assets, fileName: string) returns (r: Option<seq<string>>)
    ensures r == ReadSqlAsset(assets, fileName)
  {
    if fileName == "" {
      return None;
    }
    var path := SQLW_FOLDER + fileName;
    if path in assets {
      var script := GetSqlScript(assets[path]);
      r := Some(script);
    } else {
      r := Some([]);
    }
  }

  /** A migration file yields only non-empty statements. */
  lemma ReadSqlAssetNonEmpty(assets: Assets, fileName: string)
    requires fileName != ""
    ensures forall s :: s in ReadSqlAsset(assets, fileName).value ==> s != ""
  {
    if SQLW_FOLDER + fileName in assets {
      StatementsShape(assets[SQLW_FOLDER + fileName], "");
    }
  }

  // ---------------------------------------------------------------------
  // The migration planner

  /** A plan answer: `None` is a null list. */
  type PlanFn = (int, int) -> Option<seq<MigrationStep>>

  datatype MigrationPlan = MigrationPlan(upgradePlan: PlanFn, downgradePlan: PlanFn)

  /** What a migration reads: the registered tables, the plan (`None` when
      none was set), the assets and the database name. */
  datatype Env = Env(tables: map<string, TableDef>, plan: Option<MigrationPlan>, assets: Assets, databaseName: string)

  datatype Direction = Upgrade | Downgrade

  /** The plan's steps for going from version `i` to `j`, when there is a
      plan and it answers with a non-empty list. */
  function PlannedSteps(env: Env, dir: Direction, i: int, j: int): (r: Option<seq<MigrationStep>>)
    ensures r.Some? ==> |r.value| > 0
  {
    if env.plan.None? then None
    else
      var answer := if dir == Upgrade then env.plan.value.upgradePlan(i, j) else env.plan.value.downgradePlan(i, j);
      if answer.Some? && |answer.value| > 0 then answer else None
  }

  /** The scripts of one version step: the plan's when it has steps for
      it, otherwise the statements of the migration file `i-j-name.sql`. */
  function PairScripts(env: Env, dir: Direction, i: int, j: int): seq<string> {
    match PlannedSteps(env, dir, i, j)
    case Some(steps) => PlanScripts(env.tables, steps)
    case None => ReadSqlAsset(env.assets, FileName(i, j, env.databaseName)).value
  }

  /** `onUpgrade`'s script list: the version steps from `oldVersion` to
      `oldVersion + 1` up to `newVersion - 1` to `newVersion`, in order. */
  function UpgradeScripts(env: Env, oldVersion: int, newVersion: int): seq<string>
    decreases newVersion - oldVersion
  {
    if newVersion <= oldVersion then [] else UpgradeScripts(env, oldVersion, newVersion - 1) + PairScripts(env, Upgrade, newVersion - 1, newVersion)
  }

  /** `onDowngrade`'s script list: the version steps from `oldVersion` to
      `oldVersion - 1` down to `newVersion + 1` to `newVersion`, in order. */
  function DowngradeScripts(env: Env, oldVersion: int, newVersion: int): seq<string>
    decreases oldVersion - newVersion
  {
    if oldVersion <= newVersion then [] else DowngradeScripts(env, oldVersion, newVersion + 1) + PairScripts(env, Downgrade, newVersion + 1, newVersion)
  }

  /** Upgrading through an intermediate version runs the same scripts as
      upgrading in one go. */
  lemma {:induction false} UpgradeSplit(env: Env, oldVersion: int, mid: int, newVersion: int)
    requires oldVersion <= mid <= newVersion
    ensures UpgradeScripts(env, oldVersion, newVersion) == UpgradeScripts(env, oldVersion, mid) + UpgradeScripts(env, mid, newVersion)
    decreases newVersion - mid
  {
    if mid < newVersion {
      UpgradeSplit(env, oldVersion, mid, newVersion - 1);
    }
  }

  lemma {:induction false} DowngradeSplit(env: Env, oldVersion: int, mid: int, newVersion: int)
    requires oldVersion >= mid >= newVersion
    ensures DowngradeScripts(env, oldVersion, newVersion) == DowngradeScripts(env, oldVersion, mid) + DowngradeScripts(env, mid, newVersion)
    decreases mid - newVersion
  {
    if mid > newVersion {
      DowngradeSplit(env, oldVersion, mid, newVersion + 1);
    }
  }

  /** One version step's scripts are never empty statements. */
  lemma PairScriptsNonEmpty(env: Env, dir: Direction, i: int, j: int)
    ensures forall s :: s in PairScripts(env, dir, i, j) ==> s != ""
  {
    match PlannedSteps(env, dir, i, j)
    case Some(steps) => PlanScriptsNonEmpty(env.tables, steps);
    case None => ReadSqlAssetNonEmpty(env.assets, FileName(i, j, env.databaseName));
  }

  /** `onUpgrade` never executes an empty statement. */
  lemma {:induction false} UpgradeNonEmpty(env: Env, oldVersion: int, newVersion: int)
    ensures forall s :: s in UpgradeScripts(env, oldVersion, newVersion) ==> s != ""
    decreases newVersion - oldVersion
  {
    if oldVersion < newVersion {
      UpgradeNonEmpty(env, oldVersion, newVersion - 1);
      PairScriptsNonEmpty(env, Upgrade, newVersion - 1, newVersion);
    }
  }

  lemma {:induction false} DowngradeNonEmpty(env: Env, oldVersion: int, newVersion: int)
    ensures forall s :: s in DowngradeScripts(env, oldVersion, newVersion) ==> s != ""
    decreases oldVersion - newVersion
  {
    if newVersion < oldVersion {
      DowngradeNonEmpty(env, oldVersion, newVersion + 1);
      PairScriptsNonEmpty(env, Downgrade, newVersion + 1, newVersion);
    }
  }

  /** The plan has steps for upgrading from version `i`. */
  predicate PlannedUpgrade(env: Env, i: int) {
    PlannedSteps(env, Upgrade, i, i + 1).Some?
  }

  /** A plan that has steps for every version step makes the migration
      files irrelevant. */
  lemma {:induction false} PlanOverridesFiles(env: Env, other: Assets, oldVersion: int, newVersion: int)
    requires forall i :: oldVersion <= i < newVersion ==> PlannedUpgrade(env, i)
    ensures UpgradeScripts(env, oldVersion, newVersion) == UpgradeScripts(env.(assets := other), oldVersion, newVersion)
    decreases newVersion - oldVersion
  {
    if oldVersion < newVersion {
      PlanOverridesFiles(env, other, oldVersion, newVersion - 1);
      assert PlannedUpgrade(env, newVersion - 1);
      assert PlannedSteps(env, Upgrade, newVersion - 1, newVersion) == PlannedSteps(env.(assets := other), Upgrade, newVersion - 1, newVersion);
    }
  }

  /** Without a plan, the upgrade runs the migration files and the
      registered tables play no part. */
  lemma {:induction false} FilesIgnoreTables(env: Env, other: map<string, TableDef>, oldVersion: int, newVersion: int)
    requires env.plan.None?
    ensures UpgradeScripts(env, oldVersion, newVersion) == UpgradeScripts(env.(tables := other), oldVersion, newVersion)
    decreases newVersion - oldVersion
  {
    if oldVersion < newVersion {
      FilesIgnoreTables(env, other, oldVersion, newVersion - 1);
    }
  }

  /** The innermost loop: the scripts of one step that are neither null
      nor empty. */
  method KeepScripts(list: seq<Option<string>>) returns (kept: seq<string>)
    ensures kept == Kept(list)
  {
    kept := [];
    var m := 0;
    while m < |list|
      invariant 0 <= m <= |list|
      invariant kept == Kept(list[..m])
    {
      assert list[..m + 1][..m] == list[..m];
      if list[m].Some? && list[m].value != "" {
        kept := kept + [list[m].value];
      }
      m := m + 1;
    }
    assert list[..m] == list;
  }

  /** The loop over a plan's steps: each step's kept scripts, in order. */
  method CollectPlanScripts(tables: map<string, TableDef>, steps: seq<MigrationStep>) returns (scripts: seq<string>)
    ensures scripts == PlanScripts(tables, steps)
  {
    scripts := [];
    var k := 0;
    while k < |steps|
      invariant 0 <= k <= |steps|
      invariant scripts == PlanScripts(tables, steps[..k])
    {
      var kept := KeepScripts(StepScripts(tables, steps[k]));
      PlanScriptsNext(tables, steps, k);
      scripts := scripts + kept;
      k := k + 1;
    }
    assert steps[..k] == steps;
  }

  lemma PlanScriptsNext(tables: map<string, TableDef>, steps: seq<MigrationStep>, k: int)
    requires 0 <= k < |steps|
    ensures PlanScripts(tables, steps[..k + 1]) == PlanScripts(tables, steps[..k]) + Kept(StepScripts(tables, steps[k]))
  {
    var prefix := steps[..k + 1];
    assert prefix[..|prefix| - 1] == steps[..k];
  }

  /** The body of the version loop of `onUpgrade` and `onDowngrade`: the
      plan's scripts when the plan has steps, otherwise the migration
      file's statements. */
  method VersionStepScripts(env: Env, dir: Direction, i: int, j: int) returns (scripts: seq<string>)
    ensures scripts == PairScripts(env, dir, i, j)
  {
    if env.plan.Some? {
      var steps := if dir == Upgrade then env.plan.value.upgradePlan(i, j) else env.plan.value.downgradePlan(i, j);
      if steps.Some? && |steps.value| > 0 {
        scripts := CollectPlanScripts(env.tables, steps.value);
        return;
      }
    }
    var r := ReadAndGetSqlScript(env.assets, FileName(i, j, env.databaseName));
    scripts := r.value;
  }

  /** Upgrading one more version step appends that step's scripts. */
  lemma UpgradeNext(env: Env, oldVersion: int, i: int)
    requires oldVersion <= i
    ensures UpgradeScripts(env, oldVersion, i + 1) == UpgradeScripts(env, oldVersion, i) + PairScripts(env, Upgrade, i, i + 1)
  {
  }

  lemma DowngradeNext(env: Env, oldVersion: int, i: int)
    requires i <= oldVersion
    ensures DowngradeScripts(env, oldVersion, i - 1) == DowngradeScripts(env, oldVersion, i) + PairScripts(env, Downgrade, i, i - 1)
  {
  }
}
