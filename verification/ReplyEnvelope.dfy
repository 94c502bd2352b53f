/**
  `RawReply::parse`: the special-purpose walker that follows each reference of a reply's
  payload dictionary one step, and its agreement with the general resolver.
 */
module ReplyEnvelope {
  import opened Archive
  import opened ArchiveRoundTrip
  import opened ArchiveSemantics
  import opened Machine
  import opened Plist
  import opened Wrappers

  /** The parts of a fetch reply before either blob is interpreted. */
  datatype RawReply = RawReply(unknownLen: nat, info: seq<byte>, data: seq<byte>)

  datatype ShapeError =
    | BadEnvelope(why: ArchiveError)
    | DanglingUid(index: nat)
    | PayloadNotDictionary
    | NoKeys
    | NoValues
    | LengthsDiffer
    | KeyNotAString
    | UnknownNotArray
    | InfoNotData
    | DataNotData
    | MissingUnknown
    | MissingInfo
    | MissingData
    | InfoNotMultiple(len: nat)
    | PayloadOutOfRange(offset: nat, size: nat)

  /** `resolve`: follow at most one UID. */
  function ResolveOnce(objects: seq<Value>, v: Value): Result<Value, ShapeError> {
    if v.Uid? then
      if v.index < |objects| then Success(objects[v.index]) else Failure(DanglingUid(v.index))
    else
      Success(v)
  }

  /** The three optional locals of the walk. */
  datatype Found = Found(unknownLen: Option<nat>, info: Option<seq<byte>>, data: Option<seq<byte>>)

  const NOTHING_FOUND := Found(None, None, None)

  /** One turn of the walk: a known name must carry its own kind of value. */
  function Note(found: Found, name: string, value: Value): Result<Found, ShapeError> {
    if name == "unknown" then
      if value.Dictionary? && ArrayAt(value.entries, NS_OBJECTS).Some? then
        Success(found.(unknownLen := Some(|ArrayAt(value.entries, NS_OBJECTS).value|)))
      else
        Failure(UnknownNotArray)
    else if name == "info" then
      if value.Data? then Success(found.(info := Some(value.bytes))) else Failure(InfoNotData)
    else if name == "data" then
      if value.Data? then Success(found.(data := Some(value.bytes))) else Failure(DataNotData)
    else
      Success(found)
  }

  /** One key and its value, resolved and noted. */
  function NotePair(objects: seq<Value>, found: Found, k: Value, v: Value): Result<Found, ShapeError> {
    var name :- ResolveOnce(objects, k);
    if !name.String? then
      Failure(KeyNotAString)
    else
      var value :- ResolveOnce(objects, v);
      Note(found, name.text, value)
  }

  function Walk(objects: seq<Value>, keys: seq<Value>, vals: seq<Value>): Result<Found, ShapeError>
    requires |keys| == |vals|
  {
    if keys == [] then
      Success(NOTHING_FOUND)
    else
      var n := |keys| - 1;
      var found :- Walk(objects, keys[..n], vals[..n]);
      NotePair(objects, found, keys[n], vals[n])
  }

  /** The reply, if the walk met all three names. */
  function Complete(found: Found): Result<RawReply, ShapeError> {
    if found.unknownLen.None? then Failure(MissingUnknown)
    else if found.info.None? then Failure(MissingInfo)
    else if found.data.None? then Failure(MissingData)
    else Success(RawReply(found.unknownLen.value, found.info.value, found.data.value))
  }

  /** The payload dictionary's reference lists. */
  function Payload(root: Value): (payload: Result<(seq<Value>, seq<Value>, seq<Value>), ShapeError>)
    ensures payload.Success? ==> |payload.value.1| == |payload.value.2|
  {
    var envelope := Envelope(root);
    if envelope.Failure? then
      Failure(BadEnvelope(envelope.error))
    else
      var objects := envelope.value.0;
      var payload :- ResolveOnce(objects, envelope.value.1);
      if !payload.Dictionary? then Failure(PayloadNotDictionary)
      else
        match ArrayAt(payload.entries, NS_KEYS)
        case None => Failure(NoKeys)
        case Some(keys) =>
          match ArrayAt(payload.entries, NS_OBJECTS)
          case None => Failure(NoValues)
          case Some(vals) =>
            if |keys| != |vals| then Failure(LengthsDiffer) else Success((objects, keys, vals))
  }

  function ParseReply(root: Value): Result<RawReply, ShapeError> {
    var payload :- Payload(root);
    var found :- Walk(payload.0, payload.1, payload.2);
    Complete(found)
  }

  /** An error in a prefix of the walk is the error of the walk. */
  lemma {:induction false} WalkPrefixFails(objects: seq<Value>, keys: seq<Value>, vals: seq<Value>, n: nat)
    requires n <= |keys| == |vals|
    requires Walk(objects, keys[..n], vals[..n]).Failure?
    ensures Walk(objects, keys, vals) == Walk(objects, keys[..n], vals[..n])
    decreases |keys|
  {
    if n == |keys| {
      assert keys[..n] == keys && vals[..n] == vals;
    } else {
      var m := |keys| - 1;
      assert keys[..m][..n] == keys[..n] && vals[..m][..n] == vals[..n];
      WalkPrefixFails(objects, keys[..m], vals[..m], n);
    }
  }

  /** `RawReply::parse`, from the parsed property list on. */
  method Parse(root: Value) returns (r: Result<RawReply, ShapeError>)
    ensures r == ParseReply(root)
  {
    var payload := Payload(root);
    if payload.Failure? {
      return Failure(payload.error);
    }
    var found := WalkPairs(payload.value.0, payload.value.1, payload.value.2);
    if found.Failure? {
      return Failure(found.error);
    }
    r := Complete(found.value);
  }

  /** Its loop over the pairs, with its three locals. */
  method WalkPairs(objects: seq<Value>, keys: seq<Value>, vals: seq<Value>) returns (r: Result<Found, ShapeError>)
    requires |keys| == |vals|
    ensures r == Walk(objects, keys, vals)
  {
    var unknownLen: Option<nat>, info: Option<seq<byte>>, data: Option<seq<byte>> := None, None, None;
    for i := 0 to |keys|
      invariant Walk(objects, keys[..i], vals[..i]) == Success(Found(unknownLen, info, data))
    {
      assert keys[..i + 1][..i] == keys[..i] && vals[..i + 1][..i] == vals[..i];
      var noted := NotePair(objects, Found(unknownLen, info, data), keys[i], vals[i]);
      if noted.Failure? {
        WalkPrefixFails(objects, keys, vals, i + 1);
        return Failure(noted.error);
      }
      unknownLen, info, data := noted.value.unknownLen, noted.value.info, noted.value.data;
    }
    assert keys[..|keys|] == keys && vals[..|vals|] == vals;
    r := Success(Found(unknownLen, info, data));
  }

  // ---------------------------------------------------------------------------
  // The walker refines the resolver
  // ---------------------------------------------------------------------------

  /** A reference one step from a string or data resolves to it, if it resolves. */
  lemma OneStepAgrees(objects: seq<Value>, v: Value, depth: nat)
    requires ResolveOnce(objects, v).Success? && Unarchive(objects, v, depth).Success?
    ensures var seen, t := ResolveOnce(objects, v).value, Unarchive(objects, v, depth).value;
            && (seen.String? || seen.Data? ==> t == seen)
            && (seen.Dictionary? && ArrayAt(seen.entries, "NS.objects").Some? ==>
                  if ArrayAt(seen.entries, "NS.keys").Some? then t.Dictionary?
                  else t.Array? && |t.items| == |ArrayAt(seen.entries, "NS.objects").value|)
  {
    var seen := ResolveOnce(objects, v).value;
    var d := if v.Uid? then depth + 1 else depth;
    assert Unarchive(objects, v, depth) == Unarchive(objects, seen, d);
    if seen.Dictionary? && ArrayAt(seen.entries, "NS.objects").Some? && ArrayAt(seen.entries, "NS.keys").None? {
      var vals := ArrayAt(seen.entries, "NS.objects").value;
      ItemsPointwise(objects, vals, d + 1, UnarchiveItems(objects, vals, d + 1).value);
    }
  }

  /** What the walk has found so far is what the resolver's map holds so far. */
  ghost predicate Agrees(found: Found, entries: map<string, Value>) {
    && (found.info.Some? <==> "info" in entries)
    && (found.info.Some? ==> entries["info"] == Data(found.info.value))
    && (found.data.Some? <==> "data" in entries)
    && (found.data.Some? ==> entries["data"] == Data(found.data.value))
    && (found.unknownLen.Some? <==> "unknown" in entries)
    && (found.unknownLen.Some? ==>
          || entries["unknown"].Dictionary?
          || (entries["unknown"].Array? && |entries["unknown"].items| == found.unknownLen.value))
  }

  lemma NoteAgrees(found: Found, entries: map<string, Value>, name: string, seen: Value, t: Value)
    requires Agrees(found, entries)
    requires Note(found, name, seen).Success?
    requires seen.String? || seen.Data? ==> t == seen
    requires seen.Dictionary? && ArrayAt(seen.entries, "NS.objects").Some? ==>
               t.Dictionary? || (t.Array? && |t.items| == |ArrayAt(seen.entries, "NS.objects").value|)
    ensures Agrees(Note(found, name, seen).value, entries[name := t])
  {
    assert "info" != "data" by { assert "info"[0] != "data"[0]; }
    assert "info" != "unknown" by { assert "info"[0] != "unknown"[0]; }
    assert "data" != "unknown" by { assert "data"[0] != "unknown"[0]; }
  }

  lemma {:induction false} WalkAgrees(objects: seq<Value>, keys: seq<Value>, vals: seq<Value>, depth: nat)
    requires |keys| == |vals|
    requires Walk(objects, keys, vals).Success?
    requires UnarchiveEntries(objects, keys, vals, depth).Success?
    ensures Agrees(Walk(objects, keys, vals).value, UnarchiveEntries(objects, keys, vals, depth).value)
    decreases |keys|
  {
    if keys != [] {
      var n := |keys| - 1;
      WalkAgrees(objects, keys[..n], vals[..n], depth);
      OneStepAgrees(objects, keys[n], depth);
      OneStepAgrees(objects, vals[n], depth);
      NoteAgrees(Walk(objects, keys[..n], vals[..n]).value,
                 UnarchiveEntries(objects, keys[..n], vals[..n], depth).value,
                 ResolveOnce(objects, keys[n]).value.text,
                 ResolveOnce(objects, vals[n]).value,
                 Unarchive(objects, vals[n], depth).value);
    }
  }

  /** Whenever both succeed on one archive, the walker's blobs are the resolved root's own
      entries - the last of any repeated key - and the length it reports is that of the
      resolved array, unless `unknown` was archived as a dictionary. */
  lemma WalkerRefinesResolver(root: Value)
    requires ParseReply(root).Success?
    requires UnarchiveRoot(root).Success?
    ensures var reply, entries := ParseReply(root).value, UnarchiveRoot(root).value;
            && "info" in entries && entries["info"] == Data(reply.info)
            && "data" in entries && entries["data"] == Data(reply.data)
            && "unknown" in entries
            && (entries["unknown"].Array? || entries["unknown"].Dictionary?)
            && (entries["unknown"].Array? ==> |entries["unknown"].items| == reply.unknownLen)
  {
    var (objects, keys, vals) := Payload(root).value;
    PayloadAgrees(root, Envelope(root).value.1, 0);
  }

  lemma PayloadAgrees(root: Value, v: Value, depth: nat)
    requires Payload(root).Success? && Envelope(root).value.1 == v
    requires Unarchive(Envelope(root).value.0, v, depth).Success?
    ensures var (objects, keys, vals) := Payload(root).value;
            && |keys| == |vals|
            && (Walk(objects, keys, vals).Success? ==>
                  && Unarchive(objects, v, depth).value.Dictionary?
                  && Agrees(Walk(objects, keys, vals).value, Unarchive(objects, v, depth).value.entries))
  {
    var (objects, keys, vals) := Payload(root).value;
    if Walk(objects, keys, vals).Success? {
      WalkAgrees(objects, keys, vals, if v.Uid? then depth + 2 else depth + 1);
    }
  }

  // ---------------------------------------------------------------------------
  // The walker on an archived dictionary
  // ---------------------------------------------------------------------------

  /** The kinds of tree the three names must carry. */
  ghost predicate NameOk(name: string, t: Value) {
    && (name == "unknown" ==> t.Array? || t.Dictionary?)
    && (name == "info" || name == "data" ==> t.Data?)
  }

  /** What the walk has found among the first names of an archived dictionary. */
  ghost predicate FoundIn(found: Found, entries: map<string, Value>, names: seq<string>) {
    && (found.info == if "info" in names && "info" in entries && entries["info"].Data?
                      then Some(entries["info"].bytes) else None)
    && (found.data == if "data" in names && "data" in entries && entries["data"].Data?
                      then Some(entries["data"].bytes) else None)
    && (found.unknownLen.Some? <==> "unknown" in names)
    && ("unknown" in names && "unknown" in entries && entries["unknown"].Array? ==>
          found.unknownLen.Some? && found.unknownLen.value == |entries["unknown"].items|)
  }

  lemma {:induction false} WalkArchived(objects: seq<Value>, keys: seq<Value>, vals: seq<Value>,
                                        names: seq<string>, entries: map<string, Value>)
    requires |keys| == |vals| == |names|
    requires forall i | 0 <= i < |keys| :: NamesSlot(objects, keys[i]) && objects[keys[i].index] == String(names[i])
    requires forall i | 0 <= i < |vals| ::
               names[i] in entries && vals[i].Uid? && Archives(objects, vals[i].index, entries[names[i]])
    ensures Walk(objects, keys, vals).Success?
       <==> forall i | 0 <= i < |names| :: NameOk(names[i], entries[names[i]])
    ensures Walk(objects, keys, vals).Success? ==> FoundIn(Walk(objects, keys, vals).value, entries, names)
    decreases |keys|
  {
    if keys != [] {
      var n := |keys| - 1;
      WalkArchived(objects, keys[..n], vals[..n], names[..n], entries);
      if Walk(objects, keys[..n], vals[..n]).Success? {
        PairArchived(objects, keys, vals, names, entries, Walk(objects, keys[..n], vals[..n]).value);
        forall i | 0 <= i < n ensures NameOk(names[i], entries[names[i]]) {
          assert NameOk(names[..n][i], entries[names[..n][i]]);
        }
      } else {
        var i :| 0 <= i < n && !NameOk(names[..n][i], entries[names[..n][i]]);
        assert !NameOk(names[i], entries[names[i]]);
      }
    }
  }

  /** One more pair, behind a walk that has found what it should. */
  lemma PairArchived(objects: seq<Value>, keys: seq<Value>, vals: seq<Value>, names: seq<string>,
                     entries: map<string, Value>, found: Found)
    requires |keys| == |vals| == |names| > 0
    requires var n := |keys| - 1;
             && Walk(objects, keys[..n], vals[..n]) == Success(found) && FoundIn(found, entries, names[..n])
             && NamesSlot(objects, keys[n]) && objects[keys[n].index] == String(names[n])
             && names[n] in entries && vals[n].Uid? && Archives(objects, vals[n].index, entries[names[n]])
    ensures Walk(objects, keys, vals).Success? <==> NameOk(names[|keys| - 1], entries[names[|keys| - 1]])
    ensures Walk(objects, keys, vals).Success? ==> FoundIn(Walk(objects, keys, vals).value, entries, names)
  {
    var n := |keys| - 1;
    assert names == names[..n] + [names[n]];
    NoteArchived(objects, found, names[..n], names[n], vals[n], entries);
  }

  lemma NoteArchived(objects: seq<Value>, found: Found, names: seq<string>, name: string, v: Value,
                     entries: map<string, Value>)
    requires FoundIn(found, entries, names)
    requires name in entries && v.Uid? && Archives(objects, v.index, entries[name])
    ensures Note(found, name, objects[v.index]).Success? <==> NameOk(name, entries[name])
    ensures Note(found, name, objects[v.index]).Success?
        ==> FoundIn(Note(found, name, objects[v.index]).value, entries, names + [name])
  {
    assert "info" != "data" by { assert "info"[0] != "data"[0]; }
    assert "info" != "unknown" by { assert "info"[0] != "unknown"[0]; }
    assert "data" != "unknown" by { assert "data"[0] != "unknown"[0]; }
  }

  /** On the archive of any dictionary the walker succeeds exactly when `info` and `data`
      are data and `unknown` is a collection, whatever else the dictionary holds and however
      deep; and then it returns those very entries. */
  lemma ArchivedReplyParses(root: Value, objects: seq<Value>, u: nat, entries: map<string, Value>)
    requires Envelope(root) == Success((objects, Uid(u)))
    requires Archives(objects, u, Dictionary(entries))
    ensures ParseReply(root).Success?
       <==> (&& "unknown" in entries && (entries["unknown"].Array? || entries["unknown"].Dictionary?)
             && "info" in entries && entries["info"].Data?
             && "data" in entries && entries["data"].Data?)
    ensures ParseReply(root).Success? ==>
              var reply := ParseReply(root).value;
              && reply.info == entries["info"].bytes
              && reply.data == entries["data"].bytes
              && (entries["unknown"].Array? ==> reply.unknownLen == |entries["unknown"].items|)
  {
    var keys, vals, names, trees := ArchivedEntries(objects, u, Dictionary(entries));
    PayloadArchived(root, objects, keys, vals, names, entries);
  }

  lemma PayloadArchived(root: Value, objects: seq<Value>, keys: seq<Value>, vals: seq<Value>,
                        names: seq<string>, entries: map<string, Value>)
    requires Payload(root) == Success((objects, keys, vals))
    requires |keys| == |vals| == |names|
    requires forall name :: name in entries <==> name in names
    requires forall i | 0 <= i < |keys| :: NamesSlot(objects, keys[i]) && objects[keys[i].index] == String(names[i])
    requires forall i | 0 <= i < |vals| ::
               names[i] in entries && vals[i].Uid? && Archives(objects, vals[i].index, entries[names[i]])
    ensures ParseReply(root).Success?
       <==> (&& "unknown" in entries && (entries["unknown"].Array? || entries["unknown"].Dictionary?)
             && "info" in entries && entries["info"].Data?
             && "data" in entries && entries["data"].Data?)
    ensures ParseReply(root).Success? ==>
              var reply := ParseReply(root).value;
              && reply.info == entries["info"].bytes
              && reply.data == entries["data"].bytes
              && (entries["unknown"].Array? ==> reply.unknownLen == |entries["unknown"].items|)
  {
    WalkArchived(objects, keys, vals, names, entries);
    AllNamesOk(names, entries);
  }

  lemma AllNamesOk(names: seq<string>, entries: map<string, Value>)
    requires forall name :: name in entries <==> name in names
    ensures (forall i | 0 <= i < |names| :: NameOk(names[i], entries[names[i]]))
       <==> (&& ("unknown" in entries ==> entries["unknown"].Array? || entries["unknown"].Dictionary?)
             && ("info" in entries ==> entries["info"].Data?)
             && ("data" in entries ==> entries["data"].Data?))
  {
    if forall i | 0 <= i < |names| :: NameOk(names[i], entries[names[i]]) {
      forall name | name in entries ensures NameOk(name, entries[name]) {
        var i :| 0 <= i < |names| && names[i] == name;
        assert NameOk(names[i], entries[names[i]]);
      }
    }
  }

  // ---------------------------------------------------------------------------
  // What is wrong with a reply that does not parse
  // ---------------------------------------------------------------------------

  /** What stands behind a value, one reference away. */
  ghost function Behind(objects: seq<Value>, v: Value): Value {
    if v.Uid? && v.index < |objects| then objects[v.index] else v
  }

  /** The pair is wrong in the way the error says. */
  ghost predicate PairOffends(objects: seq<Value>, k: Value, v: Value, error: ShapeError) {
    match error
    case DanglingUid(index) => index >= |objects| && (k == Uid(index) || v == Uid(index))
    case KeyNotAString => !Behind(objects, k).String?
    case UnknownNotArray =>
      && Behind(objects, k) == String("unknown")
      && !(Behind(objects, v).Dictionary? && ArrayAt(Behind(objects, v).entries, "NS.objects").Some?)
    case InfoNotData => Behind(objects, k) == String("info") && !Behind(objects, v).Data?
    case DataNotData => Behind(objects, k) == String("data") && !Behind(objects, v).Data?
    case _ => false
  }

  /** The walk stops at a pair that is really wrong. */
  lemma {:induction false} WalkErrorIsReal(objects: seq<Value>, keys: seq<Value>, vals: seq<Value>) returns (i: nat)
    requires |keys| == |vals| && Walk(objects, keys, vals).Failure?
    ensures i < |keys| && PairOffends(objects, keys[i], vals[i], Walk(objects, keys, vals).error)
    decreases |keys|
  {
    var n := |keys| - 1;
    i := n;
    if Walk(objects, keys[..n], vals[..n]).Failure? {
      i := WalkErrorIsReal(objects, keys[..n], vals[..n]);
    }
  }

  /** A name that was not found is behind no key. */
  lemma {:induction false} NotFoundNotThere(objects: seq<Value>, keys: seq<Value>, vals: seq<Value>)
    requires |keys| == |vals| && Walk(objects, keys, vals).Success?
    ensures var found := Walk(objects, keys, vals).value;
            && (found.unknownLen.None? ==> NoKey(objects, keys, "unknown"))
            && (found.info.None? ==> NoKey(objects, keys, "info"))
            && (found.data.None? ==> NoKey(objects, keys, "data"))
    decreases |keys|
  {
    if keys != [] {
      var n := |keys| - 1;
      NotFoundNotThere(objects, keys[..n], vals[..n]);
      OneMoreName(objects, keys, "unknown");
      OneMoreName(objects, keys, "info");
      OneMoreName(objects, keys, "data");
      NoteFinds(Walk(objects, keys[..n], vals[..n]).value, Behind(objects, keys[n]).text, Behind(objects, vals[n]));
    }
  }

  ghost predicate NoKey(objects: seq<Value>, keys: seq<Value>, name: string) {
    forall i | 0 <= i < |keys| :: Behind(objects, keys[i]) != String(name)
  }

  lemma OneMoreName(objects: seq<Value>, keys: seq<Value>, name: string)
    requires keys != []
    ensures NoKey(objects, keys[..|keys| - 1], name) && Behind(objects, keys[|keys| - 1]) != String(name) ==>
              NoKey(objects, keys, name)
  {
    if NoKey(objects, keys[..|keys| - 1], name) {
      forall i | 0 <= i < |keys| - 1 ensures Behind(objects, keys[i]) != String(name) {
        assert keys[..|keys| - 1][i] == keys[i];
      }
    }
  }

  lemma NoteFinds(found: Found, name: string, value: Value)
    requires Note(found, name, value).Success?
    ensures var next := Note(found, name, value).value;
            && (next.unknownLen.None? ==> found.unknownLen.None? && name != "unknown")
            && (next.info.None? ==> found.info.None? && name != "info")
            && (next.data.None? ==> found.data.None? && name != "data")
  {
    assert "info" != "data" by { assert "info"[0] != "data"[0]; }
    assert "info" != "unknown" by { assert "info"[0] != "unknown"[0]; }
    assert "data" != "unknown" by { assert "data"[0] != "unknown"[0]; }
  }

  /** The reply is wrong in the way the error says: its envelope, its payload dictionary, one of
      the pairs in that, or a name that is behind no key. */
  ghost predicate ReplyDefect(root: Value, error: ShapeError) {
    if error.BadEnvelope? then Envelope(root) == Failure(error.why)
    else
      && Envelope(root).Success?
      && var objects, v := Envelope(root).value.0, Envelope(root).value.1;
         var payload := Behind(objects, v);
         if !payload.Dictionary? then
           error == if v.Uid? && v.index >= |objects| then DanglingUid(v.index) else PayloadNotDictionary
         else
           var keys, vals := ArrayAt(payload.entries, "NS.keys"), ArrayAt(payload.entries, "NS.objects");
           if keys.None? then error == NoKeys
           else if vals.None? then error == NoValues
           else if |keys.value| != |vals.value| then error == LengthsDiffer
           else if error.MissingUnknown? then NoKey(objects, keys.value, "unknown")
           else if error.MissingInfo? then NoKey(objects, keys.value, "info")
           else if error.MissingData? then NoKey(objects, keys.value, "data")
           else exists i :: 0 <= i < |keys.value| && PairOffends(objects, keys.value[i], vals.value[i], error)
  }

  /** Every parse error names a real defect of the reply. */
  lemma ReplyErrorIsReal(root: Value)
    requires ParseReply(root).Failure?
    ensures ReplyDefect(root, ParseReply(root).error)
  {
    if Payload(root).Success? {
      var (objects, keys, vals) := Payload(root).value;
      if Walk(objects, keys, vals).Failure? {
        var i := WalkErrorIsReal(objects, keys, vals);
      } else {
        NotFoundNotThere(objects, keys, vals);
      }
    }
  }
}
