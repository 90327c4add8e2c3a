/**
 The task table of src/vault/config.rs: a configuration names itself and
 holds a TOML table of tasks keyed by task name. `task_get` fetches one task
 entry as a table, `task_valid` checks that an entry carries a string `cmd`
 and an array `args`.
 */
module TaskTable {
  import opened Options

  /** A TOML value, one constructor per kind `toml::Value` distinguishes. */
  datatype Value =
    | Str(text: string)
    | Integer(number: int)
    | Float(float: real)
    | Boolean(flag: bool)
    | Datetime(stamp: string)
    | Array(items: seq<Value>)
    | Table(entries: map<string, Value>)

  type Table = map<string, Value>

  /** The deserialised configuration file: its name and its `tasks` table. */
  datatype Config = Config(name: string, tasks: Table)

  /** `task_get` (config.rs lines 59-75): the entry of `task` as a table, or
      `None` when there is no such entry or it is not a table. */
  function TaskGet(cfg: Config, task: string): (r: Option<Table>)
    ensures r.Some? <==> task in cfg.tasks && cfg.tasks[task].Table?
    ensures r.Some? ==> cfg.tasks[task] == Table(r.value)
  {
    if task !in cfg.tasks then None
    else
      match cfg.tasks[task]
      case Table(t) => Some(t)
      case _ => None
  }

  /** `task_valid` (config.rs lines 77-109): the four checks in the order the
      source makes them, each failing check ending the validation. */
  function TaskValid(value: Table): (ok: bool)
    ensures ok ==> "cmd" in value && "args" in value
  {
    if "cmd" !in value then false
    else if !value["cmd"].Str? then false
    else if "args" !in value then false
    else if !value["args"].Array? then false
    else true
  }

  /** Keys other than `cmd` and `args` never change the verdict. */
  lemma {:induction false} TaskValidIgnoresOtherKeys(value: Table, key: string, v: Value)
    requires key != "cmd" && key != "args"
    ensures TaskValid(value[key := v]) == TaskValid(value)
    ensures TaskValid(value - {key}) == TaskValid(value)
  {
    var updated := value[key := v];
    var removed := value - {key};
    assert ("cmd" in updated <==> "cmd" in value) && ("args" in updated <==> "args" in value);
    assert ("cmd" in removed <==> "cmd" in value) && ("args" in removed <==> "args" in value);
    if "cmd" in value {
      assert updated["cmd"] == value["cmd"] && removed["cmd"] == value["cmd"];
    }
    if "args" in value {
      assert updated["args"] == value["args"] && removed["args"] == value["args"];
    }
  }

  /** The verdict depends only on the entry restricted to `cmd` and `args`,
      and it is true exactly when `cmd` holds a string and `args` an array. */
  lemma TaskValidCharacterised(value: Table)
    ensures TaskValid(value) <==>
      && "cmd" in value && value["cmd"].Str?
      && "args" in value && value["args"].Array?
    ensures TaskValid(value) == TaskValid(map k | k in value && (k == "cmd" || k == "args") :: value[k])
  {
  }
}
