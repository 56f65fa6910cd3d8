/** `ConfigManager` (backend/Config/ConfigManager.cs): the in-memory copy
    of the configuration table and the getters that fall back to the
    environment and to built-in defaults.

    The environment is a map parameter, the password hasher a function
    parameter, and the change event is returned instead of raised. */
module ConfigManager {
  import opened Wrappers
  import opened Text

  type Config = map<string, string>

  datatype ConfigItem = ConfigItem(name: string, value: string)

  /** A change notification: the updated items and the whole new map. */
  datatype ConfigEvent = ConfigEvent(changedConfig: Config, newConfig: Config)

  /** Some item of `items` is named `name`. */
  ghost predicate Names(items: seq<ConfigItem>, name: string) {
    exists i :: 0 <= i < |items| && items[i].name == name
  }

  /** The value of the last item named `name`. */
  function LastValue(items: seq<ConfigItem>, name: string): (r: Option<string>)
    ensures r.Some? <==> Names(items, name)
  {
    if |items| == 0 then None
    else if items[|items| - 1].name == name then Some(items[|items| - 1].value)
    else
      var init := items[..|items| - 1];
      assert forall i :: 0 <= i < |init| ==> init[i] == items[i];
      LastValue(init, name)
  }

  /** Writes every item in order into `config`: the last write of a name
      wins, and names not written keep their value. */
  function Apply(config: Config, items: seq<ConfigItem>): (r: Config)
    ensures forall k :: k in r <==> k in config || LastValue(items, k).Some?
    ensures forall k :: k in r ==> r[k] == (if LastValue(items, k).Some? then LastValue(items, k).value else config[k])
  {
    if |items| == 0 then config
    else
      var last := items[|items| - 1];
      Apply(config, items[..|items| - 1])[last.name := last.value]
  }

  /** `GetConfigValue`: the stored value, or null for a missing name. */
  function GetConfigValue(config: Config, name: string): (r: Option<string>)
    ensures r.Some? <==> name in config
    ensures r.Some? ==> r.value == config[name]
  {
    if name in config then Some(config[name]) else None
  }

  /** `LoadConfig`: the table's rows replace the whole map. */
  function LoadConfig(rows: seq<ConfigItem>): (r: Config)
    ensures forall k :: k in r <==> Names(rows, k)
    ensures forall k :: k in r ==> r[k] == LastValue(rows, k).value
  {
    Apply(map[], rows)
  }

  /** Whatever was there before, a load leaves only the rows' values. */
  lemma LoadForgetsOldValues(rows: seq<ConfigItem>, name: string)
    requires !Names(rows, name)
    ensures GetConfigValue(LoadConfig(rows), name) == None
  {
  }

  /** No two items share a name. */
  predicate DistinctNames(items: seq<ConfigItem>) {
    forall i, j :: 0 <= i < j < |items| ==> items[i].name != items[j].name
  }

  /** Names stay distinct after appending exactly when the new name is
      fresh. */
  lemma DistinctSnoc(items: seq<ConfigItem>)
    requires |items| > 0
    ensures DistinctNames(items) <==>
              DistinctNames(items[..|items| - 1]) && !Names(items[..|items| - 1], items[|items| - 1].name)
  {
    var init := items[..|items| - 1];
    if !DistinctNames(items) {
      var i, j :| 0 <= i < j < |items| && items[i].name == items[j].name;
      if j < |items| - 1 {
        assert init[i].name == init[j].name;
      } else {
        assert init[i].name == items[|items| - 1].name;
      }
    }
  }

  /** LINQ's `ToDictionary` over the items: fails on a repeated name. */
  function ToDictionary(items: seq<ConfigItem>): (r: Result<Config>)
    ensures r.Ok? <==> DistinctNames(items)
    ensures r.Err? ==> r.error == ArgumentInvalid
    ensures r.Ok? ==> forall k :: k in r.value <==> Names(items, k)
    ensures r.Ok? ==> forall i :: 0 <= i < |items| ==> items[i].name in r.value && r.value[items[i].name] == items[i].value
  {
    if |items| == 0 then Ok(map[])
    else
      var init := items[..|items| - 1];
      var last := items[|items| - 1];
      DistinctSnoc(items);
      match ToDictionary(init)
      case Err(e) => Err(e)
      case Ok(m) =>
        if last.name in m then Err(ArgumentInvalid)
        else
          assert forall i :: 0 <= i < |init| ==> init[i] == items[i];
          Ok(m[last.name := last.value])
  }

  datatype Update = Update(config: Config, event: Option<ConfigEvent>, error: Option<Error>)

  /** `UpdateValues`: writes the items, then, when someone listens,
      builds the event; a repeated name makes building it throw after the
      map was already written. */
  function UpdateValues(config: Config, items: seq<ConfigItem>, hasListener: bool): (r: Update)
    ensures r.config == Apply(config, items)
    ensures r.event.Some? <==> hasListener && DistinctNames(items)
    ensures r.error.Some? <==> hasListener && !DistinctNames(items)
    ensures r.error.Some? ==> r.error.value == ArgumentInvalid
    ensures r.event.Some? ==> r.event.value.newConfig == r.config
  {
    var updated := Apply(config, items);
    if !hasListener then Update(updated, None, None)
    else match ToDictionary(items)
      case Err(e) => Update(updated, None, Some(e))
      case Ok(changed) => Update(updated, Some(ConfigEvent(changed, updated)), None)
  }

  /** The update writes exactly the given names and nothing else; the
      event names exactly those items, with the values now in the map. */
  lemma {:induction false} UpdateValuesCorrect(config: Config, items: seq<ConfigItem>, hasListener: bool, name: string)
    ensures var r := UpdateValues(config, items, hasListener);
            && (!Names(items, name) ==> GetConfigValue(r.config, name) == GetConfigValue(config, name))
            && (Names(items, name) ==> GetConfigValue(r.config, name) == LastValue(items, name))
            && (r.event.Some? ==> (name in r.event.value.changedConfig <==> Names(items, name)))
            && (r.event.Some? && name in r.event.value.changedConfig ==>
                  r.event.value.changedConfig[name] == r.config[name])
  {
    var r := UpdateValues(config, items, hasListener);
    if r.event.Some? && Names(items, name) {
      var i :| 0 <= i < |items| && items[i].name == name;
      DistinctLast(items, i);
    }
  }

  /** With distinct names, the last item of a name is its only item. */
  lemma {:induction false} DistinctLast(items: seq<ConfigItem>, i: nat)
    requires DistinctNames(items) && i < |items|
    ensures LastValue(items, items[i].name) == Some(items[i].value)
  {
    if i < |items| - 1 {
      DistinctLast(items[..|items| - 1], i);
    }
  }

  /** `StringUtil.EmptyToNull`: an empty string counts as missing. */
  function EmptyToNull(s: Option<string>): (r: Option<string>)
    ensures r.Some? <==> s.Some? && s.value != ""
    ensures r.Some? ==> r == s
  {
    if s.Some? && s.value == "" then None else s
  }

  /** The first non-empty value of a config entry, then an environment
      variable. */
  function Configured(config: Config, env: map<string, string>, name: string, variable: string): (r: Option<string>)
    ensures r.Some? ==> r.value != ""
    ensures EmptyToNull(GetConfigValue(config, name)).Some? ==> r == Some(config[name])
    ensures EmptyToNull(GetConfigValue(config, name)).None? ==> r == EmptyToNull(GetConfigValue(env, variable))
  {
    match EmptyToNull(GetConfigValue(config, name))
    case Some(v) => Some(v)
    case None => EmptyToNull(GetConfigValue(env, variable))
  }

  function GetRcloneMountDir(config: Config, env: map<string, string>): (r: string)
    ensures r != ""
    ensures Configured(config, env, "rclone.mount-dir", "MOUNT_DIR").None? ==> r == "/tmp"
  {
    Configured(config, env, "rclone.mount-dir", "MOUNT_DIR").GetOr("/tmp")
  }

  /** Only a non-empty setting overrides the environment, and only a
      non-empty variable overrides "/tmp". */
  lemma MountDirFallback(config: Config, env: map<string, string>)
    ensures GetRcloneMountDir(config, env) ==
              if "rclone.mount-dir" in config && config["rclone.mount-dir"] != "" then config["rclone.mount-dir"]
              else if "MOUNT_DIR" in env && env["MOUNT_DIR"] != "" then env["MOUNT_DIR"]
              else "/tmp"
  {
  }

  /** `GetApiKey`: the setting, else a variable that must be set (here
      an empty one counts as set). */
  function GetApiKey(config: Config, env: map<string, string>): (r: Result<string>)
    ensures r.Err? <==> EmptyToNull(GetConfigValue(config, "api.key")).None? && "FRONTEND_BACKEND_API_KEY" !in env
    ensures r.Err? ==> r.error == MissingEnvironment("FRONTEND_BACKEND_API_KEY")
    ensures "api.key" in config && config["api.key"] != "" ==> r == Ok(config["api.key"])
    ensures ("api.key" !in config || config["api.key"] == "") && "FRONTEND_BACKEND_API_KEY" in env ==>
              r == Ok(env["FRONTEND_BACKEND_API_KEY"])
  {
    match EmptyToNull(GetConfigValue(config, "api.key"))
    case Some(v) => Ok(v)
    case None =>
      if "FRONTEND_BACKEND_API_KEY" in env then Ok(env["FRONTEND_BACKEND_API_KEY"])
      else Err(MissingEnvironment("FRONTEND_BACKEND_API_KEY"))
  }

  const DefaultCategories := "audio,software,tv,movies"

  /** The setting, else the `CATEGORIES` variable, else the default list;
      an empty setting or variable counts as missing. */
  function GetApiCategories(config: Config, env: map<string, string>): (r: string)
    ensures r != ""
    ensures r == if "api.categories" in config && config["api.categories"] != "" then config["api.categories"]
                 else if "CATEGORIES" in env && env["CATEGORIES"] != "" then env["CATEGORIES"]
                 else DefaultCategories
  {
    Configured(config, env, "api.categories", "CATEGORIES").GetOr(DefaultCategories)
  }

  const Int32Min: int := -0x8000_0000
  const Int32Max: int := 0x7FFF_FFFF

  /** `int.Parse` on an optional sign and ASCII digits. */
  function ParseInt32(s: string): (r: Result<int>)
    ensures r.Ok? ==> Int32Min <= r.value <= Int32Max
    ensures r.Err? ==> r.error == FormatError || r.error == OverflowError
    ensures s != "" && AllDigits(s) ==> (r.Ok? <==> DecimalValue(s) <= Int32Max)
    ensures s != "" && AllDigits(s) && r.Ok? ==> r.value == DecimalValue(s)
    ensures |s| > 1 && (s[0] == '+' || s[0] == '-') && AllDigits(s[1..]) ==>
              var v: int := if s[0] == '-' then -(DecimalValue(s[1..]) as int) else DecimalValue(s[1..]);
              && (r.Ok? <==> Int32Min <= v <= Int32Max)
              && (r.Ok? ==> r.value == v)
  {
    var negative := |s| > 0 && s[0] == '-';
    var digits := if |s| > 0 && (s[0] == '-' || s[0] == '+') then s[1..] else s;
    if digits == "" || !AllDigits(digits) then Err(FormatError)
    else
      var v: int := if negative then -(DecimalValue(digits) as int) else DecimalValue(digits);
      if v < Int32Min || v > Int32Max then Err(OverflowError) else Ok(v)
  }

  function GetConnectionsPerStream(config: Config, env: map<string, string>): (r: Result<int>)
    ensures Configured(config, env, "usenet.connections-per-stream", "CONNECTIONS_PER_STREAM").None? ==> r == Ok(1)
    ensures Configured(config, env, "usenet.connections-per-stream", "CONNECTIONS_PER_STREAM").Some? ==>
              r == ParseInt32(Configured(config, env, "usenet.connections-per-stream", "CONNECTIONS_PER_STREAM").value)
  {
    assert ParseInt32("1") == Ok(1) by {
      assert DecimalValue("1") == DecimalValue("") * 10 + DigitValue('1');
    }
    ParseInt32(Configured(config, env, "usenet.connections-per-stream", "CONNECTIONS_PER_STREAM").GetOr("1"))
  }

  function GetWebdavUser(config: Config, env: map<string, string>): (r: Option<string>)
    ensures r.Some? ==> r.value != ""
    ensures r == Configured(config, env, "webdav.user", "WEBDAV_USER")
  {
    Configured(config, env, "webdav.user", "WEBDAV_USER")
  }

  /** The stored hash, else the hash of a `WEBDAV_PASSWORD` variable (an
      empty one is hashed too), else none. */
  function GetWebdavPasswordHash(config: Config, env: map<string, string>, hash: string -> string): (r: Option<string>)
    ensures EmptyToNull(GetConfigValue(config, "webdav.pass")).Some? ==> r == Some(config["webdav.pass"])
    ensures EmptyToNull(GetConfigValue(config, "webdav.pass")).None? ==>
              (r.Some? <==> "WEBDAV_PASSWORD" in env)
    ensures EmptyToNull(GetConfigValue(config, "webdav.pass")).None? && r.Some? ==> r.value == hash(env["WEBDAV_PASSWORD"])
  {
    var hashedPass := EmptyToNull(GetConfigValue(config, "webdav.pass"));
    if hashedPass.Some? then hashedPass
    else if "WEBDAV_PASSWORD" in env then Some(hash(env["WEBDAV_PASSWORD"]))
    else None
  }

  /** `bool.Parse`: "true" or "false" in any letter case. */
  function ParseBool(s: string): (r: Result<bool>)
    ensures r.Ok? <==> ToLower(s) == "true" || ToLower(s) == "false"
    ensures r.Ok? ==> r.value == (ToLower(s) == "true")
    ensures r.Err? ==> r.error == FormatError
  {
    var l := ToLower(s);
    if l == "true" then Ok(true) else if l == "false" then Ok(false) else Err(FormatError)
  }

  /** On unless a non-empty setting says otherwise. */
  function IsEnsureImportableVideoEnabled(config: Config): (r: Result<bool>)
    ensures EmptyToNull(GetConfigValue(config, "api.ensure-importable-video")).None? ==> r == Ok(true)
    ensures r == Ok(false) ==> "api.ensure-importable-video" in config && ToLower(config["api.ensure-importable-video"]) == "false"
    ensures "api.ensure-importable-video" in config && config["api.ensure-importable-video"] != "" ==>
              r == ParseBool(config["api.ensure-importable-video"])
    ensures r.Err? ==> r.error == FormatError
  {
    match EmptyToNull(GetConfigValue(config, "api.ensure-importable-video"))
    case Some(v) => ParseBool(v)
    case None => Ok(true)
  }
}
