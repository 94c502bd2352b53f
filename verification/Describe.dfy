/**
  The descriptor join of `describe.rs`: order the fetched textures, drop repeats, walk them
  against the manifest, and hand each texture its descriptor.
 */
module Describe {
  import opened Machine
  import opened Wrappers
  import opened Formats
  import opened Join

  /** A fetched texture, as far as the join reads it. */
  datatype Texture = Texture(streamRef: u64, width: u32, height: u32, format: u32)

  /** A manifest texture descriptor. */
  datatype TextureDescriptor = TextureDescriptor(
    store0Offset: u64, format: u32, textureType: u32, width: u32, height: u32, depth: u32, mipLevels: u32,
    arrayLength: u32, sampleCount: u32, usage: u32, textureId: u64)

  datatype Descriptions = Descriptions(
    perTexture: seq<Option<TextureDescriptor>>, unplaced: seq<TextureDescriptor>, transparent: seq<TextureDescriptor>)

  function EntryOf(d: TextureDescriptor): Entry {
    Entry(Key(d.width, d.height, d.format), IsCombinedDepthStencil(KindOf(d.format)))
  }

  function Entries(descs: seq<TextureDescriptor>): (entries: seq<Entry>)
    ensures |entries| == |descs|
  {
    seq(|descs|, x requires 0 <= x < |descs| => EntryOf(descs[x]))
  }

  function Refs(texs: seq<Texture>): (refs: seq<u64>)
    ensures |refs| == |texs| && forall x | 0 <= x < |texs| :: refs[x] == texs[x].streamRef
  {
    seq(|texs|, x requires 0 <= x < |texs| => texs[x].streamRef)
  }

  ghost predicate AllBelow(at: seq<nat>, n: nat) {
    forall a | 0 <= a < |at| :: at[a] < n
  }

  /** The elements standing at the given places. */
  function At<T>(s: seq<T>, at: seq<nat>): (r: seq<T>)
    requires AllBelow(at, |s|)
    ensures |r| == |at| && forall a | 0 <= a < |at| :: r[a] == s[at[a]]
  {
    seq(|at|, a requires 0 <= a < |at| => s[at[a]])
  }

  // ---------------------------------------------------------------------------
  // Ordering and deduplication
  // ---------------------------------------------------------------------------

  /** `x` goes before `y`: a lower ref, or an equal one and earlier. */
  ghost predicate Before(refs: seq<u64>, x: nat, y: nat)
    requires x < |refs| && y < |refs|
  {
    refs[x] < refs[y] || (refs[x] == refs[y] && x < y)
  }

  function Insert(refs: seq<u64>, order: seq<nat>, i: nat): (r: seq<nat>)
    requires i < |refs| && AllBelow(order, |refs|)
    ensures |r| == |order| + 1 && AllBelow(r, |refs|)
  {
    if order == [] || refs[order[|order| - 1]] <= refs[i] then order + [i]
    else Insert(refs, order[..|order| - 1], i) + [order[|order| - 1]]
  }

  /** The stable order of the first `n` indices by ref. */
  function StableOrder(refs: seq<u64>, n: nat): (order: seq<nat>)
    requires n <= |refs|
    ensures AllBelow(order, |refs|)
  {
    if n == 0 then [] else Insert(refs, StableOrder(refs, n - 1), n - 1)
  }

  ghost predicate Sorted(refs: seq<u64>, order: seq<nat>) {
    && AllBelow(order, |refs|)
    && forall a, b | 0 <= a < b < |order| :: Before(refs, order[a], order[b])
  }

  lemma {:induction false} InsertSorts(refs: seq<u64>, order: seq<nat>, i: nat)
    requires i < |refs| && Sorted(refs, order)
    requires forall a | 0 <= a < |order| :: order[a] < i
    ensures Sorted(refs, Insert(refs, order, i))
    ensures forall x: nat :: x in Insert(refs, order, i) <==> (x == i || x in order)
    decreases |order|
  {
    if !(order == [] || refs[order[|order| - 1]] <= refs[i]) {
      var init, last := order[..|order| - 1], order[|order| - 1];
      InsertSorts(refs, init, i);
      assert order == init + [last];
      var r := Insert(refs, init, i);
      forall a | 0 <= a < |r| ensures Before(refs, r[a], last) {
        assert r[a] in r;
      }
    }
  }

  lemma {:induction false} StableOrderSorts(refs: seq<u64>, n: nat)
    requires n <= |refs|
    ensures Sorted(refs, StableOrder(refs, n))
    ensures forall x: nat :: x in StableOrder(refs, n) <==> x < n
    decreases n
  {
    if n > 0 {
      StableOrderSorts(refs, n - 1);
      var order := StableOrder(refs, n - 1);
      forall a | 0 <= a < |order| ensures order[a] < n - 1 {
        assert order[a] in order;
      }
      InsertSorts(refs, order, n - 1);
    }
  }

  /** Of the first `n` ordered indices, those whose ref has not come before. */
  function KeepFirst(refs: seq<u64>, order: seq<nat>, n: nat): (kept: seq<nat>)
    requires AllBelow(order, |refs|) && n <= |order|
    ensures AllBelow(kept, |refs|)
  {
    if n == 0 then []
    else KeepFirst(refs, order, n - 1) + if Seen(refs, order, n - 1, refs[order[n - 1]]) then [] else [order[n - 1]]
  }

  predicate Seen(refs: seq<u64>, order: seq<nat>, n: nat, ref: u64)
    requires AllBelow(order, |refs|) && n <= |order|
  {
    exists a | 0 <= a < n :: refs[order[a]] == ref
  }

  /** `sorted` of `describe_textures`. */
  function Firsts(refs: seq<u64>): (sorted: seq<nat>)
    ensures AllBelow(sorted, |refs|)
  {
    var order := StableOrder(refs, |refs|);
    KeepFirst(refs, order, |order|)
  }

  ghost predicate FirstOccurrence(refs: seq<u64>, x: nat)
    requires x < |refs|
  {
    forall y | 0 <= y < x :: refs[y] != refs[x]
  }

  /** One index for each ref, the first, by strictly ascending ref. */
  ghost predicate IsFirsts(refs: seq<u64>, sorted: seq<nat>) {
    && AllBelow(sorted, |refs|)
    && (forall a {:trigger FirstOccurrence(refs, sorted[a])} | 0 <= a < |sorted| :: FirstOccurrence(refs, sorted[a]))
    && (forall a, b | 0 <= a < b < |sorted| :: refs[sorted[a]] < refs[sorted[b]])
    && (forall x | 0 <= x < |refs| :: Covers(refs, sorted, x))
  }

  /** The ref at `x` is among those kept. */
  ghost predicate Covers(refs: seq<u64>, kept: seq<nat>, x: nat)
    requires AllBelow(kept, |refs|) && x < |refs|
  {
    exists a | 0 <= a < |kept| :: refs[kept[a]] == refs[x]
  }

  /** `all` is every index, in order. */
  ghost predicate Ordering(refs: seq<u64>, all: seq<nat>) {
    Sorted(refs, all) && forall x: nat :: x in all <==> x < |refs|
  }

  /** `kept` is what the first `n` of `all` leave. */
  ghost predicate Kept(refs: seq<u64>, all: seq<nat>, n: nat, kept: seq<nat>)
    requires n <= |all| && AllBelow(all, |refs|)
  {
    && AllBelow(kept, |refs|)
    && (forall a {:trigger FirstOccurrence(refs, kept[a])} | 0 <= a < |kept| :: FirstOccurrence(refs, kept[a]))
    && (forall a | 0 <= a < |kept| :: n > 0 && refs[kept[a]] <= refs[all[n - 1]])
    && (forall a, b | 0 <= a < b < |kept| :: refs[kept[a]] < refs[kept[b]])
    && (forall a {:trigger Covers(refs, kept, all[a])} | 0 <= a < n :: Covers(refs, kept, all[a]))
  }

  lemma KeptSkips(refs: seq<u64>, all: seq<nat>, n: nat, kept: seq<nat>)
    requires n < |all| && Ordering(refs, all) && Kept(refs, all, n, kept) && Seen(refs, all, n, refs[all[n]])
    ensures Kept(refs, all, n + 1, kept)
  {
    var a :| 0 <= a < n && refs[all[a]] == refs[all[n]];
    assert Covers(refs, kept, all[a]);
    assert Covers(refs, kept, all[n]);
    assert n > 0 ==> Before(refs, all[n - 1], all[n]);
  }

  lemma KeptAdds(refs: seq<u64>, all: seq<nat>, n: nat, kept: seq<nat>)
    requires n < |all| && Ordering(refs, all) && Kept(refs, all, n, kept) && !Seen(refs, all, n, refs[all[n]])
    ensures Kept(refs, all, n + 1, kept + [all[n]])
  {
    var more := kept + [all[n]];
    FirstKept(refs, all, n);
    assert n > 0 ==> refs[all[n - 1]] < refs[all[n]];
    forall a | 0 <= a < n + 1 ensures Covers(refs, more, all[a]) {
      if a == n {
        assert refs[more[|kept|]] == refs[all[n]];
      } else {
        assert Covers(refs, kept, all[a]);
        var b :| 0 <= b < |kept| && refs[kept[b]] == refs[all[a]];
        assert more[b] == kept[b];
      }
    }
    forall a | 0 <= a < |more| ensures FirstOccurrence(refs, more[a]) {
      if a < |kept| {
        assert FirstOccurrence(refs, kept[a]);
      }
    }
  }

  lemma {:induction false} KeepFirstAscends(refs: seq<u64>, all: seq<nat>, n: nat)
    requires n <= |all| && Ordering(refs, all)
    ensures Kept(refs, all, n, KeepFirst(refs, all, n))
    decreases n
  {
    if n > 0 {
      KeepFirstAscends(refs, all, n - 1);
      KeptAdvances(refs, all, n - 1);
      assert Kept(refs, all, n - 1 + 1, KeepFirst(refs, all, n - 1 + 1));
      assert Kept(refs, all, n, KeepFirst(refs, all, n));
    }
  }

  lemma KeptAdvances(refs: seq<u64>, all: seq<nat>, n: nat)
    requires n < |all| && Ordering(refs, all) && Kept(refs, all, n, KeepFirst(refs, all, n))
    ensures Kept(refs, all, n + 1, KeepFirst(refs, all, n + 1))
  {
    var kept, next := KeepFirst(refs, all, n), KeepFirst(refs, all, n + 1);
    if Seen(refs, all, n, refs[all[n]]) {
      KeptSkips(refs, all, n, kept);
      assert next == kept;
    } else {
      KeptAdds(refs, all, n, kept);
      assert next == kept + [all[n]];
    }
  }

  /** An ordered index whose ref is new is the first with it, and above all before it. */
  lemma FirstKept(refs: seq<u64>, all: seq<nat>, n: nat)
    requires n < |all| && Ordering(refs, all) && !Seen(refs, all, n, refs[all[n]])
    ensures FirstOccurrence(refs, all[n])
    ensures forall a | 0 <= a < n :: refs[all[a]] < refs[all[n]]
  {
    forall y | 0 <= y < all[n] ensures refs[y] != refs[all[n]] {
      assert y in all;
      var b :| 0 <= b < |all| && all[b] == y;
      if b > n {
        assert Before(refs, all[n], all[b]);
      }
    }
    forall a | 0 <= a < n ensures refs[all[a]] < refs[all[n]] {
      assert Before(refs, all[a], all[n]);
    }
  }

  /** What the sort and the filter keep: the first index of every ref, by ref. */
  lemma FirstsExact(refs: seq<u64>)
    ensures IsFirsts(refs, Firsts(refs))
  {
    var order := StableOrder(refs, |refs|);
    StableOrderSorts(refs, |refs|);
    KeepFirstAscends(refs, order, |order|);
    KeptIsFirsts(refs, order, Firsts(refs));
  }

  lemma KeptIsFirsts(refs: seq<u64>, order: seq<nat>, kept: seq<nat>)
    requires Ordering(refs, order) && Kept(refs, order, |order|, kept)
    ensures IsFirsts(refs, kept)
  {
    forall x | 0 <= x < |refs| ensures Covers(refs, kept, x) {
      assert x in order;
      var a :| 0 <= a < |order| && order[a] == x;
      assert Covers(refs, kept, order[a]);
    }
  }

  /** There is only one such list. */
  lemma FirstsUnique(refs: seq<u64>, s: seq<nat>, t: seq<nat>)
    requires IsFirsts(refs, s) && IsFirsts(refs, t)
    ensures s == t
  {
    if |s| <= |t| {
      PrefixesAgree(refs, s, t, |s|);
      NoMore(refs, s, t);
    } else {
      PrefixesAgree(refs, t, s, |t|);
      NoMore(refs, t, s);
    }
  }

  lemma {:induction false} PrefixesAgree(refs: seq<u64>, s: seq<nat>, t: seq<nat>, a: nat)
    requires IsFirsts(refs, s) && IsFirsts(refs, t) && a <= |s| && a <= |t|
    ensures forall c | 0 <= c < a :: s[c] == t[c]
    decreases a
  {
    if a > 0 {
      PrefixesAgree(refs, s, t, a - 1);
      NextAgrees(refs, s, t, a - 1);
    }
  }

  lemma NextAgrees(refs: seq<u64>, s: seq<nat>, t: seq<nat>, a: nat)
    requires IsFirsts(refs, s) && IsFirsts(refs, t) && a < |s| && a < |t| && forall c | 0 <= c < a :: s[c] == t[c]
    ensures s[a] == t[a]
  {
    NotBelow(refs, s, t, a);
    NotBelow(refs, t, s, a);
    assert FirstOccurrence(refs, s[a]) && FirstOccurrence(refs, t[a]);
  }

  lemma NoMore(refs: seq<u64>, s: seq<nat>, t: seq<nat>)
    requires IsFirsts(refs, s) && IsFirsts(refs, t) && |s| <= |t| && forall c | 0 <= c < |s| :: s[c] == t[c]
    ensures s == t
  {
    var a := |s|;
    forall c | 0 <= c < |s| ensures a < |t| ==> refs[s[c]] != refs[t[a]] {
      assert a < |t| ==> refs[t[c]] < refs[t[a]];
    }
    assert a < |t| ==> Covers(refs, s, t[a]);
  }

  lemma NotBelow(refs: seq<u64>, s: seq<nat>, t: seq<nat>, a: nat)
    requires IsFirsts(refs, s) && IsFirsts(refs, t) && a < |s| && a < |t| && forall c | 0 <= c < a :: s[c] == t[c]
    ensures refs[s[a]] <= refs[t[a]]
  {
    forall c | 0 <= c < a ensures refs[s[c]] < refs[t[a]] {
      assert s[c] == t[c];
    }
    assert Covers(refs, s, t[a]);
  }

  // ---------------------------------------------------------------------------
  // The join
  // ---------------------------------------------------------------------------

  function KeysOf(texs: seq<Texture>, sorted: seq<nat>): (keys: seq<Key>)
    requires AllBelow(sorted, |texs|)
    ensures |keys| == |sorted|
    ensures forall a | 0 <= a < |keys| ::
              var t := texs[sorted[a]]; keys[a] == Key(t.width, t.height, t.format)
  {
    seq(|sorted|, a requires 0 <= a < |sorted| =>
      Key(texs[sorted[a]].width, texs[sorted[a]].height, texs[sorted[a]].format))
  }

  /** The writes of `vals[a]` at place `at[a]`, in order, over `n` empty places. */
  function Scatter<T>(n: nat, at: seq<nat>, vals: seq<Option<T>>): (r: seq<Option<T>>)
    requires |at| == |vals| && AllBelow(at, n)
    ensures |r| == n
  {
    if at == [] then seq(n, _ => None)
    else
      var k := |at| - 1;
      Scatter(n, at[..k], vals[..k])[at[k] := vals[k]]
  }

  /** Which descriptor index each texture is given. */
  function Attributed(texs: seq<Texture>, entries: seq<Entry>): (r: seq<Option<nat>>)
    ensures |r| == |texs|
  {
    var sorted := Firsts(Refs(texs));
    Scatter(|texs|, sorted, Pairing(KeysOf(texs, sorted), entries))
  }

  ghost predicate InRange(out: seq<Option<nat>>, n: nat) {
    forall x | 0 <= x < |out| && out[x].Some? :: out[x].value < n
  }

  /** The elements the present indices stand for. */
  function Chosen<T>(s: seq<T>, out: seq<Option<nat>>): (r: seq<Option<T>>)
    requires InRange(out, |s|)
    ensures |r| == |out|
    ensures forall x | 0 <= x < |out| :: r[x] == if out[x].Some? then Some(s[out[x].value]) else None
  {
    seq(|out|, x requires 0 <= x < |out| => if out[x].Some? then Some(s[out[x].value]) else None)
  }

  function Joined(texs: seq<Texture>, descs: seq<TextureDescriptor>, entries: seq<Entry>): Descriptions
    requires |entries| == |descs|
  {
    var sorted := Firsts(Refs(texs));
    var keys := KeysOf(texs, sorted);
    Descriptions(
      Scatter(|texs|, sorted, Chosen(descs, Pairing(keys, entries))),
      At(descs, Unplaced(keys, entries)),
      At(descs, Transparent(entries)))
  }

  function Described(texs: seq<Texture>, descs: seq<TextureDescriptor>): Descriptions {
    Joined(texs, descs, Entries(descs))
  }

  /** `describe_textures`. */
  method DescribeTextures(texs: seq<Texture>, descs: seq<TextureDescriptor>) returns (d: Descriptions)
    ensures d == Described(texs, descs)
  {
    if descs == [] {
      NoDescriptors(texs, Entries(descs));
      return Descriptions(seq(|texs|, _ => None), [], []);
    }
    d := JoinEntries(texs, descs, Entries(descs));
  }

  method JoinEntries(texs: seq<Texture>, descs: seq<TextureDescriptor>, entries: seq<Entry>) returns (d: Descriptions)
    requires |entries| == |descs|
    ensures d == Joined(texs, descs, entries)
  {
    var sorted := DropRepeats(Refs(texs));
    var keys := KeysOf(texs, sorted);
    var matched, unplaced, transparent := ZipBestEffort(keys, entries);
    var perTexture := ScatterDescriptors(|texs|, sorted, matched, descs);
    d := Descriptions(perTexture, At(descs, unplaced), At(descs, transparent));
  }

  /** The sort and the `seen` filter. */
  method DropRepeats(refs: seq<u64>) returns (sorted: seq<nat>)
    ensures sorted == Firsts(refs)
  {
    var order := StableOrder(refs, |refs|);
    var seen: set<u64> := {};
    sorted := [];
    for a := 0 to |order|
      invariant sorted == KeepFirst(refs, order, a)
      invariant forall ref: u64 :: ref in seen <==> Seen(refs, order, a, ref)
    {
      if refs[order[a]] !in seen {
        seen := seen + {refs[order[a]]};
        sorted := sorted + [order[a]];
      }
    }
  }

  /** The loop that maps each sorted texture back to its place in the input. */
  method ScatterDescriptors(n: nat, sorted: seq<nat>, matched: seq<Option<nat>>, descs: seq<TextureDescriptor>)
    returns (perTexture: seq<Option<TextureDescriptor>>)
    requires |sorted| == |matched| && AllBelow(sorted, n) && InRange(matched, |descs|)
    ensures perTexture == Scatter(n, sorted, Chosen(descs, matched))
  {
    ghost var vals := Chosen(descs, matched);
    var descFor := new Option<TextureDescriptor>[n](_ => None);
    for a := 0 to |sorted|
      invariant descFor[..] == Scatter(n, sorted[..a], vals[..a])
    {
      ScatterStep(n, sorted, vals, a);
      descFor[sorted[a]] := if matched[a].Some? then Some(descs[matched[a].value]) else None;
    }
    assert sorted[..|sorted|] == sorted && vals[..|sorted|] == vals;
    perTexture := descFor[..];
  }

  lemma ScatterStep<T>(n: nat, at: seq<nat>, vals: seq<Option<T>>, a: nat)
    requires |at| == |vals| && AllBelow(at, n) && a < |at|
    ensures Scatter(n, at[..a + 1], vals[..a + 1]) == Scatter(n, at[..a], vals[..a])[at[a] := vals[a]]
  {
    assert at[..a + 1][..a] == at[..a] && vals[..a + 1][..a] == vals[..a];
  }

  lemma {:induction false} AllAbsent<T>(n: nat, at: seq<nat>, vals: seq<Option<T>>)
    requires |at| == |vals| && AllBelow(at, n) && forall a | 0 <= a < |vals| :: vals[a] == None
    ensures forall x | 0 <= x < n :: Scatter(n, at, vals)[x] == None
    decreases |at|
  {
    if at != [] {
      AllAbsent(n, at[..|at| - 1], vals[..|at| - 1]);
    }
  }

  /** The early return for an empty manifest is what the join would give. */
  lemma NoDescriptors(texs: seq<Texture>, entries: seq<Entry>)
    requires entries == []
    ensures Joined(texs, [], entries) == Descriptions(seq(|texs|, _ => None), [], [])
  {
    var none: seq<TextureDescriptor> := [];
    var sorted := Firsts(Refs(texs));
    var out := Pairing(KeysOf(texs, sorted), entries);
    assert forall a | 0 <= a < |out| :: out[a] == None;
    ScatterNothing(|texs|, sorted, none, out);
  }

  lemma ScatterNothing<T>(n: nat, at: seq<nat>, s: seq<T>, out: seq<Option<nat>>)
    requires |at| == |out| && AllBelow(at, n) && InRange(out, |s|) && forall a | 0 <= a < |out| :: out[a] == None
    ensures Scatter(n, at, Chosen(s, out)) == seq(n, _ => None)
  {
    AllAbsent(n, at, Chosen(s, out));
  }
}
