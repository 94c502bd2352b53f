/** An already parsed property-list value, and the accessors the decoders use on it. */
module Plist {
  import opened Machine
  import opened Wrappers

  /** Equality of dictionaries ignores insertion order, as a map's does. A UID is any
      number: one beyond every table is merely out of bounds. */
  datatype Value =
    | Dictionary(entries: map<string, Value>)
    | Array(items: seq<Value>)
    | Data(bytes: seq<byte>)
    | String(text: string)
    | Integer(number: int)
    | Real(bits: u64)
    | Boolean(flag: bool)
    | Date(seconds: int)
    | Uid(index: nat)

  /** `d.get(key).and_then(Value::as_array)` */
  function ArrayAt(d: map<string, Value>, key: string): Option<seq<Value>> {
    if key in d && d[key].Array? then Some(d[key].items) else None
  }

  /** `d.get(key).and_then(Value::as_dictionary)` */
  function DictionaryAt(d: map<string, Value>, key: string): Option<map<string, Value>> {
    if key in d && d[key].Dictionary? then Some(d[key].entries) else None
  }

  /** `d.get(key).and_then(Value::as_data)` */
  function DataAt(d: map<string, Value>, key: string): Option<seq<byte>> {
    if key in d && d[key].Data? then Some(d[key].bytes) else None
  }
}
