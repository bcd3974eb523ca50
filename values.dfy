/** The PHP values the plugin keeps in a record's `config` and `content`. */
module Values {

  import opened Wrappers

  /** A PHP value. Arrays are either lists or associative arrays; an
      associative array keeps its entries in insertion order, as PHP does. */
  datatype Value =
    | Null
    | Bool(b: bool)
    | Int(i: int)
    | Str(s: string)
    | Duration(seconds: int)               // a relative time such as '10 Minutes', already parsed
    | Callable(handle: nat)                // anything `is_callable` accepts
    | List(items: seq<Value>)
    | Dict(entries: seq<(string, Value)>)

  /** A record's configuration: `interval`, `callback`, `args` and any other key. */
  type Config = map<string, Value>

  /** PHP's `empty()`. */
  predicate IsEmpty(v: Value)
  {
    match v
    case Null => true
    case Bool(b) => !b
    case Int(i) => i == 0
    case Str(s) => s == "" || s == "0"
    case Duration(_) => false
    case Callable(_) => false
    case List(items) => items == []
    case Dict(entries) => entries == []
  }

  /** `$config[$key]`: null when the key is missing. */
  function Lookup(config: Config, key: string): Value
  {
    if key in config then config[key] else Null
  }

  /** `isset($array[$key])` on an associative array: the value under `key`
      when it is there and not null. */
  function Get(entries: seq<(string, Value)>, key: string): (r: Option<Value>)
    ensures r.Some? ==> r.value != Null && exists i :: 0 <= i < |entries| && entries[i] == (key, r.value)
    ensures r.None? ==> (key, Null) in entries || forall i :: 0 <= i < |entries| ==> entries[i].0 != key
  {
    if |entries| == 0 then None
    else if entries[0].0 == key && entries[0].1 != Null then Some(entries[0].1)
    else if entries[0].0 == key then None
    else
      var r := Get(entries[1..], key);
      assert r.Some? ==> entries[1..][0] == entries[1];
      r
  }

  /** `unset($array[$key])`. */
  function Remove(entries: seq<(string, Value)>, key: string): (r: seq<(string, Value)>)
    ensures forall i :: 0 <= i < |r| ==> r[i].0 != key && r[i] in entries
    ensures forall i :: 0 <= i < |entries| && entries[i].0 != key ==> entries[i] in r
  {
    if |entries| == 0 then []
    else if entries[0].0 == key then Remove(entries[1..], key)
    else [entries[0]] + Remove(entries[1..], key)
  }

  /** An associative array read as a configuration mapping. */
  function ToConfig(entries: seq<(string, Value)>): (c: Config)
    ensures c.Keys == set i | 0 <= i < |entries| :: entries[i].0
    ensures forall k :: k in c ==> exists i :: 0 <= i < |entries| && entries[i] == (k, c[k])
  {
    if |entries| == 0 then map[]
    else
      var rest := ToConfig(entries[1..]);
      var c := rest[entries[0].0 := entries[0].1];
      assert forall k :: k in rest ==> exists i :: 1 <= i < |entries| && entries[i] == (k, rest[k]) by {
        forall k | k in rest ensures exists i :: 1 <= i < |entries| && entries[i] == (k, rest[k]) {
          var j :| 0 <= j < |entries[1..]| && entries[1..][j] == (k, rest[k]);
          assert entries[j + 1] == (k, rest[k]);
        }
      }
      assert c.Keys == set i | 0 <= i < |entries| :: entries[i].0 by {
        forall k ensures k in c.Keys <==> k in set i | 0 <= i < |entries| :: entries[i].0 {
          if k in rest.Keys {
            var j :| 0 <= j < |entries[1..]| && entries[1..][j].0 == k;
            assert entries[j + 1].0 == k;
          }
          if k in set i | 0 <= i < |entries| :: entries[i].0 {
            var j :| 0 <= j < |entries| && entries[j].0 == k;
            if j > 0 { assert entries[1..][j - 1].0 == k; }
          }
        }
      }
      c
  }

  /** The key PHP gives the `i`-th item of a list: `i` in decimal. */
  function IndexName(i: nat): (s: string)
    ensures |s| > 0 && forall j :: 0 <= j < |s| ==> '0' <= s[j] <= '9'
  {
    var digit := ['0' + (i % 10) as char];
    if i < 10 then digit else IndexName(i / 10) + digit
  }

  /** A list read as an array: its items under the keys 0, 1, ... */
  function ListEntries(items: seq<Value>): (es: seq<(string, Value)>)
    ensures |es| == |items|
    ensures forall i :: 0 <= i < |es| ==> es[i] == (IndexName(i), items[i])
  {
    seq(|items|, i requires 0 <= i < |items| => (IndexName(i), items[i]))
  }

  /** `isset` on an associative array agrees with the configuration read
      from it: the first entry under a key is the one both see. */
  lemma {:induction false} GetAgreesWithConfig(entries: seq<(string, Value)>, key: string)
    ensures Get(entries, key) ==
      if key in ToConfig(entries) && ToConfig(entries)[key] != Null then Some(ToConfig(entries)[key]) else None
  {
    if |entries| > 0 && entries[0].0 != key {
      GetAgreesWithConfig(entries[1..], key);
    }
  }
}
