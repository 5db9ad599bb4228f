/**
 * Configuration validation and lookup: the channel and network validators
 * over a parsed JSON object, and the dot-path lookup that prefers the
 * channel configuration and falls back to the network one. Reading and
 * parsing the files is a parameter: each load arrives as the parsed object
 * or the error it raised.
 */
module Config {
  import opened Wrappers
  import opened Exceptions
  import opened Text

  /** A JSON value as `json.load` returns it. */
  datatype Json =
    | JNull
    | JBool(b: bool)
    | JNum(x: real)
    | JStr(s: string)
    | JArr(items: seq<Json>)
    | JObj(fields: map<string, Json>)

  type Object = map<string, Json>

  /**
   * The number a value compares as against an int: booleans are 0 and 1,
   * and comparing anything else with a number is a TypeError.
   */
  function Numeric(j: Json): (x: Option<real>)
    ensures x.Some? <==> j.JNum? || j.JBool?
  {
    match j
    case JNum(x) => Some(x)
    case JBool(b) => Some(if b then 1.0 else 0.0)
    case _ => None
  }

  predicate AllIn(config: Object, keys: seq<string>)
  {
    forall j :: 0 <= j < |keys| ==> keys[j] in config
  }

  /** The first of the required keys missing from the object, if any. */
  function FirstMissing(config: Object, required: seq<string>): (r: Option<string>)
    ensures r.None? <==> AllIn(config, required)
    ensures r.Some? ==> r.value !in config
    ensures r.Some? ==>
      exists i :: 0 <= i < |required| && required[i] == r.value && AllIn(config, required[..i])
  {
    if |required| == 0 then None
    else if required[0] !in config then
      assert AllIn(config, required[..0]);
      Some(required[0])
    else
      var rest := FirstMissing(config, required[1..]);
      assert AllIn(config, required) <==> AllIn(config, required[1..]) by {
        assert forall j :: 1 <= j < |required| ==> required[j] == required[1..][j - 1];
      }
      if rest.Some? then
        var i :| 0 <= i < |required| - 1 && required[1..][i] == rest.value && AllIn(config, required[1..][..i]);
        assert required[..i + 1] == [required[0]] + required[1..][..i];
        assert AllIn(config, required[..i + 1]);
        rest
      else rest
  }

  const ChannelFields: seq<string> := ["snr_db", "sample_rate", "channel_model"]
  const NetworkFields: seq<string> := ["mode", "listen", "forward"]

  /**
   * `_validate_channel_config`: the required keys in order, then SNR within
   * [-20, 60] dB inclusive, then a positive sample rate. None means valid.
   */
  function ValidateChannel(config: Object): (e: Option<Exception>)
    ensures e.None? <==>
      AllIn(config, ChannelFields) && "snr_db" in config && "sample_rate" in config
      && Numeric(config["snr_db"]).Some? && -20.0 <= Numeric(config["snr_db"]).value <= 60.0
      && Numeric(config["sample_rate"]).Some? && Numeric(config["sample_rate"]).value > 0.0
    ensures e.Some? ==> e.value == ConfigurationError || e.value == TypeError
    ensures !AllIn(config, ChannelFields) ==> e == Some(ConfigurationError)
    ensures e == Some(TypeError) <==>
      AllIn(config, ChannelFields) && "snr_db" in config && "sample_rate" in config
      && (Numeric(config["snr_db"]).None?
          || (-20.0 <= Numeric(config["snr_db"]).value <= 60.0 && Numeric(config["sample_rate"]).None?))
  {
    if FirstMissing(config, ChannelFields).Some? then Some(ConfigurationError)
    else
      assert ChannelFields[0] in config && ChannelFields[1] in config;
      var snr := Numeric(config["snr_db"]);
      if snr.None? then Some(TypeError)
      else if !(-20.0 <= snr.value <= 60.0) then Some(ConfigurationError)
      else
        var sr := Numeric(config["sample_rate"]);
        if sr.None? then Some(TypeError)
        else if sr.value <= 0.0 then Some(ConfigurationError)
        else None
  }

  /** `_validate_network_config`: the required keys, then a mode of "udp" or "tcp". */
  function ValidateNetwork(config: Object): (e: Option<Exception>)
    ensures e.Some? ==> e.value == ConfigurationError
    ensures e.None? <==>
      AllIn(config, NetworkFields) && "mode" in config
      && config["mode"] in [JStr("udp"), JStr("tcp")]
  {
    if FirstMissing(config, NetworkFields).Some? then Some(ConfigurationError)
    else
      assert NetworkFields[0] in config;
      if config["mode"] !in [JStr("udp"), JStr("tcp")] then Some(ConfigurationError)
      else None
  }

  /** `_load_json` with a validator: the validator's error replaces the loaded object. */
  function Load(read: Result<Object, Exception>, validate: Object -> Option<Exception>): (r: Result<Object, Exception>)
    ensures read.Err? ==> r == read
    ensures read.Ok? ==> (r.Ok? <==> validate(read.value).None?)
    ensures r.Ok? ==> r == read
  {
    match read
    case Err(e) => Err(e)
    case Ok(config) =>
      match validate(config)
      case Some(e) => Err(e)
      case None => Ok(config)
  }

  /** The value at a path of keys, or the default once a step is not an object holding the key. */
  function Lookup(value: Json, keys: seq<string>, default: Json): Json
  {
    if |keys| == 0 then value
    else if value.JObj? && keys[0] in value.fields then Lookup(value.fields[keys[0]], keys[1..], default)
    else default
  }

  /** `get_config_value`'s walk: a loop that descends one key at a time. */
  method Walk(config: Object, keys: seq<string>, default: Json) returns (v: Json)
    ensures v == Lookup(JObj(config), keys, default)
  {
    v := JObj(config);
    var i := 0;
    while i < |keys|
      invariant 0 <= i <= |keys|
      invariant Lookup(JObj(config), keys, default) == Lookup(v, keys[i..], default)
    {
      assert keys[i..][1..] == keys[i + 1..];
      if v.JObj? && keys[i] in v.fields {
        v := v.fields[keys[i]];
      } else {
        return default;
      }
      i := i + 1;
    }
  }

  /** The object that nests `leaf` under the keys, outermost first. */
  function Nest(keys: seq<string>, leaf: Json): Json
  {
    if |keys| == 0 then leaf else JObj(map[keys[0] := Nest(keys[1..], leaf)])
  }

  /** A path through nested objects reaches the value stored there. */
  lemma {:induction false} LookupNest(keys: seq<string>, leaf: Json, default: Json)
    ensures Lookup(Nest(keys, leaf), keys, default) == leaf
  {
    if |keys| > 0 {
      LookupNest(keys[1..], leaf, default);
    }
  }

  /**
   * `get_config_value`: `SimURFConfig()` raises ConfigurationError, outside
   * the fallback, when the configuration directory does not exist. Otherwise
   * the channel configuration is used when it loads and validates, else the
   * network one; a configuration error from both gives the default, and any
   * other error (a TypeError from a validator) is raised. The key is a
   * dot-separated path.
   */
  method GetConfigValue(key: string, default: Json, configDirFound: bool,
                        channelRead: Result<Object, Exception>,
                        networkRead: Result<Object, Exception>) returns (r: Result<Json, Exception>)
    ensures !configDirFound ==> r == Err(ConfigurationError)
    ensures configDirFound ==>
      var channel := Load(channelRead, ValidateChannel);
      var network := Load(networkRead, ValidateNetwork);
      (channel.Ok? ==> r == Ok(Lookup(JObj(channel.value), Split(key, '.'), default)))
      && (channel.Err? && channel.error != ConfigurationError ==> r == Err(channel.error))
      && (channel == Err(ConfigurationError) && network.Ok? ==>
            r == Ok(Lookup(JObj(network.value), Split(key, '.'), default)))
      && (channel == Err(ConfigurationError) && network == Err(ConfigurationError) ==> r == Ok(default))
      && (channel == Err(ConfigurationError) && network.Err? && network.error != ConfigurationError ==>
            r == Err(network.error))
  {
    if !configDirFound {
      return Err(ConfigurationError);
    }
    var config: Object;
    var channel := Load(channelRead, ValidateChannel);
    if channel.Ok? {
      config := channel.value;
    } else if channel.error != ConfigurationError {
      return Err(channel.error);
    } else {
      var network := Load(networkRead, ValidateNetwork);
      if network.Ok? {
        config := network.value;
      } else if network.error != ConfigurationError {
        return Err(network.error);
      } else {
        return Ok(default);
      }
    }
    var v := Walk(config, Split(key, '.'), default);
    r := Ok(v);
  }
}
