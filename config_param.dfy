/**
 * getConfigParam (plugins/audio_interface/bluetooth_controller/index.ts), which lets
 * the MPD plugin read this plugin's configuration. The v-conf store is given as a
 * value, and JSON.parse as a function.
 */
module PluginConfig {

  /** A value v-conf's get() returns. */
  datatype Value = Undefined | Null | Bool(b: bool) | Number(n: int) | Text(s: string)

  /** JavaScript truthiness of such a value. */
  predicate Truthy(v: Value) {
    match v
    case Undefined => false
    case Null => false
    case Bool(b) => b
    case Number(n) => n != 0
    case Text(s) => s != ""
  }

  /** The configuration as seen through get(key) and getKeys(key). */
  datatype Config = Config(values: map<string, Value>, children: map<string, seq<string>>)

  function Get(c: Config, key: string): Value {
    if key in c.values then c.values[key] else Undefined
  }

  function GetKeys(c: Config, key: string): seq<string> {
    if key in c.children then c.children[key] else []
  }

  /** What getConfigParam returns: the direct value, or an array of parsed sub-key values. */
  datatype Param<T> = Direct(value: Value) | Parsed(items: seq<T>)

  /** The parsed values of the sub-keys of `key`, in sub-key order. */
  function SubValues<T>(config: Config, key: string, parse: Value -> T): (r: seq<T>)
    ensures |r| == |GetKeys(config, key)|
  {
    var keys := GetKeys(config, key);
    seq(|keys|, i requires 0 <= i < |keys| => parse(Get(config, key + "." + keys[i])))
  }

  /**
   * A truthy direct value is returned as it is. A falsy one is returned as it is when
   * `key` has no sub-keys; otherwise the result is one parsed value per sub-key, in
   * sub-key order.
   */
  method GetConfigParam<T>(config: Config, key: string, parse: Value -> T) returns (result: Param<T>)
    ensures Truthy(Get(config, key)) ==> result == Direct(Get(config, key))
    ensures !Truthy(Get(config, key)) && GetKeys(config, key) == [] ==> result == Direct(Get(config, key))
    ensures !Truthy(Get(config, key)) && GetKeys(config, key) != [] ==>
      result.Parsed? && |result.items| == |GetKeys(config, key)| &&
      forall i :: 0 <= i < |result.items| ==> result.items[i] == parse(Get(config, key + "." + GetKeys(config, key)[i]))
  {
    var value := Get(config, key);
    result := Direct(value);
    if !Truthy(value) {
      var keys := GetKeys(config, key);
      if |keys| > 0 {
        var items: seq<T> := [];
        var i := 0;
        while i < |keys|
          invariant 0 <= i <= |keys|
          invariant |items| == i
          invariant forall j :: 0 <= j < i ==> items[j] == parse(Get(config, key + "." + keys[j]))
        {
          items := items + [parse(Get(config, key + "." + keys[i]))];
          i := i + 1;
        }
        result := Parsed(items);
      }
    }
  }

  /** The same result, stated with SubValues. */
  lemma GetConfigParamSubValues<T>(config: Config, key: string, parse: Value -> T, result: Param<T>)
    requires !Truthy(Get(config, key)) && GetKeys(config, key) != []
    requires result.Parsed? && |result.items| == |GetKeys(config, key)|
    requires forall i :: 0 <= i < |result.items| ==> result.items[i] == parse(Get(config, key + "." + GetKeys(config, key)[i]))
    ensures result.items == SubValues(config, key, parse)
  {
  }
}
