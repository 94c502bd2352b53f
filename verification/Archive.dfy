/**
  The keyed-archive resolver of `pipeline.rs`: following UIDs through an object table
  that may be shared, cyclic or malformed, under a budget of 64 indirections.
 */
module Archive {
  import opened Plist
  import opened Wrappers

  const MAX_ARCHIVE_DEPTH: nat := 64
  const NS_KEYS := "NS.keys"
  const NS_OBJECTS := "NS.objects"

  datatype ArchiveError =
    | TooDeep
    | UidOutOfBounds(index: nat)
    | LengthMismatch
    | KeyNotString
    | RootNotDictionary
    | NoObjects
    | NoTop
    | NoRoot
    | ArchivedRootNotDictionary

  type Resolved = Result<Value, ArchiveError>

  // ---------------------------------------------------------------------------
  // The resolver
  // ---------------------------------------------------------------------------

  /** Resolve one node met at `depth`. A dictionary without an `NS.objects` array, a
      plain array and every scalar pass through verbatim. */
  function Unarchive(objects: seq<Value>, v: Value, depth: nat): Resolved
    decreases MAX_ARCHIVE_DEPTH + 1 - depth, 0
  {
    if depth > MAX_ARCHIVE_DEPTH then
      Failure(TooDeep)
    else
      match v
      case Uid(index) =>
        if index < |objects| then Unarchive(objects, objects[index], depth + 1)
        else Failure(UidOutOfBounds(index))
      case Dictionary(d) => (
        match ArrayAt(d, NS_OBJECTS)
        case None => Success(v)
        case Some(vals) => (
          match ArrayAt(d, NS_KEYS)
          case Some(keys) =>
            if |keys| != |vals| then
              Failure(LengthMismatch)
            else
              var out :- UnarchiveEntries(objects, keys, vals, depth + 1);
              Success(Dictionary(out))
          case None =>
            var out :- UnarchiveItems(objects, vals, depth + 1);
            Success(Array(out))))
      case _ => Success(v)
  }

  /** The entries of an archived dictionary, first to last; a repeated key keeps its
      last value, and the first error met is the one returned. */
  function UnarchiveEntries(objects: seq<Value>, keys: seq<Value>, vals: seq<Value>, depth: nat)
    : Result<map<string, Value>, ArchiveError>
    requires |keys| == |vals|
    decreases MAX_ARCHIVE_DEPTH + 1 - depth, |keys|
  {
    if keys == [] then
      Success(map[])
    else
      var n := |keys| - 1;
      var out :- UnarchiveEntries(objects, keys[..n], vals[..n], depth);
      var key :- Unarchive(objects, keys[n], depth);
      if !key.String? then
        Failure(KeyNotString)
      else
        var val :- Unarchive(objects, vals[n], depth);
        Success(out[key.text := val])
  }

  /** The items of an archived array, first to last. */
  function UnarchiveItems(objects: seq<Value>, vals: seq<Value>, depth: nat)
    : Result<seq<Value>, ArchiveError>
    decreases MAX_ARCHIVE_DEPTH + 1 - depth, |vals|
  {
    if vals == [] then
      Success([])
    else
      var n := |vals| - 1;
      var out :- UnarchiveItems(objects, vals[..n], depth);
      var val :- Unarchive(objects, vals[n], depth);
      Success(out + [val])
  }

  // ---------------------------------------------------------------------------
  // The resolver as the loops that fill its collections
  // ---------------------------------------------------------------------------

  /** An error in a prefix of the entries is the error of the whole dictionary. */
  lemma {:induction false} EntriesPrefixFails(objects: seq<Value>, keys: seq<Value>, vals: seq<Value>,
                                              depth: nat, n: nat)
    requires n <= |keys| == |vals|
    requires UnarchiveEntries(objects, keys[..n], vals[..n], depth).Failure?
    ensures UnarchiveEntries(objects, keys, vals, depth)
         == UnarchiveEntries(objects, keys[..n], vals[..n], depth)
    decreases |keys|
  {
    if n == |keys| {
      assert keys[..n] == keys && vals[..n] == vals;
    } else {
      var m := |keys| - 1;
      assert keys[..m][..n] == keys[..n] && vals[..m][..n] == vals[..n];
      EntriesPrefixFails(objects, keys[..m], vals[..m], depth, n);
    }
  }

  /** An error in a prefix of the items is the error of the whole array. */
  lemma {:induction false} ItemsPrefixFails(objects: seq<Value>, vals: seq<Value>, depth: nat, n: nat)
    requires n <= |vals|
    requires UnarchiveItems(objects, vals[..n], depth).Failure?
    ensures UnarchiveItems(objects, vals, depth) == UnarchiveItems(objects, vals[..n], depth)
    decreases |vals|
  {
    if n == |vals| {
      assert vals[..n] == vals;
    } else {
      var m := |vals| - 1;
      assert vals[..m][..n] == vals[..n];
      ItemsPrefixFails(objects, vals[..m], depth, n);
    }
  }

  /** `unarchive_value`, with its collections filled in place and its early returns. */
  method UnarchiveValue(objects: seq<Value>, v: Value, depth: nat) returns (r: Resolved)
    ensures r == Unarchive(objects, v, depth)
    decreases MAX_ARCHIVE_DEPTH + 1 - depth, 0
  {
    if depth > MAX_ARCHIVE_DEPTH {
      return Failure(TooDeep);
    }
    match v {
      case Uid(index) =>
        if index >= |objects| {
          return Failure(UidOutOfBounds(index));
        }
        r := UnarchiveValue(objects, objects[index], depth + 1);
      case Dictionary(d) =>
        var nsObjects := ArrayAt(d, NS_OBJECTS);
        if nsObjects.None? {
          return Success(v);
        }
        var nsKeys := ArrayAt(d, NS_KEYS);
        if nsKeys.Some? {
          if |nsKeys.value| != |nsObjects.value| {
            return Failure(LengthMismatch);
          }
          var entries := FillEntries(objects, nsKeys.value, nsObjects.value, depth + 1);
          r := if entries.Success? then Success(Dictionary(entries.value)) else Failure(entries.error);
        } else {
          var items := FillItems(objects, nsObjects.value, depth + 1);
          r := if items.Success? then Success(Array(items.value)) else Failure(items.error);
        }
      case _ =>
        r := Success(v);
    }
  }

  /** The insert loop of `unarchive_value`. */
  method FillEntries(objects: seq<Value>, keys: seq<Value>, vals: seq<Value>, depth: nat)
    returns (r: Result<map<string, Value>, ArchiveError>)
    requires |keys| == |vals|
    ensures r == UnarchiveEntries(objects, keys, vals, depth)
    decreases MAX_ARCHIVE_DEPTH + 1 - depth, 1
  {
    var out: map<string, Value> := map[];
    for i := 0 to |keys|
      invariant UnarchiveEntries(objects, keys[..i], vals[..i], depth) == Success(out)
    {
      assert keys[..i + 1][..i] == keys[..i] && vals[..i + 1][..i] == vals[..i];
      var key := UnarchiveValue(objects, keys[i], depth);
      if key.Failure? {
        EntriesPrefixFails(objects, keys, vals, depth, i + 1);
        return Failure(key.error);
      }
      if !key.value.String? {
        EntriesPrefixFails(objects, keys, vals, depth, i + 1);
        return Failure(KeyNotString);
      }
      var val := UnarchiveValue(objects, vals[i], depth);
      if val.Failure? {
        EntriesPrefixFails(objects, keys, vals, depth, i + 1);
        return Failure(val.error);
      }
      out := out[key.value.text := val.value];
    }
    assert keys[..|keys|] == keys && vals[..|vals|] == vals;
    r := Success(out);
  }

  /** The push loop of `unarchive_value`. */
  method FillItems(objects: seq<Value>, vals: seq<Value>, depth: nat)
    returns (r: Result<seq<Value>, ArchiveError>)
    ensures r == UnarchiveItems(objects, vals, depth)
    decreases MAX_ARCHIVE_DEPTH + 1 - depth, 1
  {
    var out: seq<Value> := [];
    for i := 0 to |vals|
      invariant UnarchiveItems(objects, vals[..i], depth) == Success(out)
    {
      assert vals[..i + 1][..i] == vals[..i];
      var val := UnarchiveValue(objects, vals[i], depth);
      if val.Failure? {
        ItemsPrefixFails(objects, vals, depth, i + 1);
        return Failure(val.error);
      }
      out := out + [val.value];
    }
    assert vals[..|vals|] == vals;
    r := Success(out);
  }

  // ---------------------------------------------------------------------------
  // The root of an archive
  // ---------------------------------------------------------------------------

  /** The object table and the root reference of an archive's envelope. */
  function Envelope(root: Value): Result<(seq<Value>, Value), ArchiveError> {
    if !root.Dictionary? then Failure(RootNotDictionary)
    else
      match ArrayAt(root.entries, "$objects")
      case None => Failure(NoObjects)
      case Some(objects) =>
        match DictionaryAt(root.entries, "$top")
        case None => Failure(NoTop)
        case Some(top) =>
          if "root" in top then Success((objects, top["root"])) else Failure(NoRoot)
  }

  /** `unarchive_root`, from the parsed property list on. */
  function UnarchiveRoot(root: Value): Result<map<string, Value>, ArchiveError> {
    var envelope :- Envelope(root);
    var resolved :- Unarchive(envelope.0, envelope.1, 0);
    if resolved.Dictionary? then Success(resolved.entries) else Failure(ArchivedRootNotDictionary)
  }
}
