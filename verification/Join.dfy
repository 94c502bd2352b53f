/**
  The two-cursor walk of `describe.rs`: greedy, in order, over the descriptors that are not
  combined depth-stencil. What it places, what it leaves, and when it is right.
 */
module Join {
  import opened Machine
  import opened Wrappers

  /** What a fetched texture and a descriptor must share exactly. */
  datatype Key = Key(width: u32, height: u32, format: u32)

  /** What the walk reads of a descriptor: its key, and whether its format is combined
      depth-stencil. */
  datatype Entry = Entry(key: Key, combined: bool)

  /** The indices of the descriptors the walk can place, in order. */
  function Solid(descs: seq<Entry>): (s: seq<nat>)
    ensures forall q | 0 <= q < |s| :: s[q] < |descs| && !descs[s[q]].combined
  {
    if descs == [] then []
    else
      var n := |descs| - 1;
      Solid(descs[..n]) + if descs[n].combined then [] else [n]
  }

  /** The indices of the descriptors the walk skips, in order. */
  function Transparent(descs: seq<Entry>): (s: seq<nat>)
    ensures forall q | 0 <= q < |s| :: s[q] < |descs| && descs[s[q]].combined
  {
    if descs == [] then []
    else
      var n := |descs| - 1;
      Transparent(descs[..n]) + if descs[n].combined then [n] else []
  }

  function SolidKeys(descs: seq<Entry>): (keys: seq<Key>)
    ensures |keys| == |Solid(descs)|
    ensures forall q | 0 <= q < |keys| :: keys[q] == descs[Solid(descs)[q]].key
  {
    var s := Solid(descs);
    seq(|s|, q requires 0 <= q < |s| => descs[s[q]].key)
  }

  // ---------------------------------------------------------------------------
  // The walk on keys alone
  // ---------------------------------------------------------------------------

  /** How many of `wanted`, in order, the keys have placed. */
  function Placed(keys: seq<Key>, wanted: seq<Key>): (k: nat)
    ensures k <= |wanted|
  {
    if keys == [] then 0
    else
      var k := Placed(keys[..|keys| - 1], wanted);
      if k < |wanted| && keys[|keys| - 1] == wanted[k] then k + 1 else k
  }

  /** Which of `wanted` key `i` is paired with. */
  function Assigned(keys: seq<Key>, wanted: seq<Key>, i: nat): (a: Option<nat>)
    requires i < |keys|
    ensures a.Some? ==> a.value < |wanted|
  {
    var k := Placed(keys[..i], wanted);
    if k < |wanted| && keys[i] == wanted[k] then Some(k) else None
  }

  lemma PlacedStep(keys: seq<Key>, wanted: seq<Key>, i: nat)
    requires i < |keys|
    ensures Placed(keys[..i + 1], wanted)
         == if Assigned(keys, wanted, i).Some? then Placed(keys[..i], wanted) + 1 else Placed(keys[..i], wanted)
  {
    assert keys[..i + 1][..i] == keys[..i];
  }

  /** The pairing as indices into the descriptors. */
  function Pairing(keys: seq<Key>, descs: seq<Entry>): (out: seq<Option<nat>>)
    ensures |out| == |keys|
    ensures forall i | 0 <= i < |out| && out[i].Some? :: out[i].value < |descs|
  {
    seq(|keys|, i requires 0 <= i < |keys| => PairOf(keys, descs, i))
  }

  function PairOf(keys: seq<Key>, descs: seq<Entry>, i: nat): (out: Option<nat>)
    requires i < |keys|
    ensures out.Some? ==> out.value < |descs|
  {
    var a := Assigned(keys, SolidKeys(descs), i);
    if a.Some? then Some(Solid(descs)[a.value]) else None
  }

  function Unplaced(keys: seq<Key>, descs: seq<Entry>): (s: seq<nat>)
    ensures forall q | 0 <= q < |s| :: s[q] < |descs|
  {
    Solid(descs)[Placed(keys, SolidKeys(descs))..]
  }

  // ---------------------------------------------------------------------------
  // The walk as the code runs it
  // ---------------------------------------------------------------------------

  /** How many placeable descriptors stand before cursor `j`. */
  ghost function Rank(descs: seq<Entry>, j: nat): nat
    requires j <= |descs|
  {
    |Solid(descs[..j])|
  }

  lemma {:induction false} SolidPrefix(descs: seq<Entry>, j: nat)
    requires j <= |descs|
    ensures Solid(descs[..j]) <= Solid(descs)
    decreases |descs|
  {
    if j < |descs| {
      assert descs[..|descs| - 1][..j] == descs[..j];
      SolidPrefix(descs[..|descs| - 1], j);
    } else {
      assert descs[..j] == descs;
    }
  }

  /** A placeable descriptor at the cursor is the one its rank counts. */
  lemma AtCursor(descs: seq<Entry>, j: nat)
    requires j < |descs|
    ensures Rank(descs, j + 1) == if descs[j].combined then Rank(descs, j) else Rank(descs, j) + 1
    ensures !descs[j].combined ==>
              && Rank(descs, j) < |Solid(descs)|
              && Solid(descs)[Rank(descs, j)] == j
              && SolidKeys(descs)[Rank(descs, j)] == descs[j].key
  {
    assert descs[..j + 1][..j] == descs[..j];
    SolidPrefix(descs, j + 1);
  }

  /** The positions already placed are the placeable ones of low rank. */
  ghost predicate Marked(descs: seq<Entry>, placed: seq<bool>, k: nat)
  {
    && |placed| == |descs|
    && forall x | 0 <= x < |placed| :: placed[x] <==> (!descs[x].combined && Rank(descs, x) < k)
  }

  /** The state of the walk before key `i`: where the cursor is and what both buffers hold. */
  ghost predicate Walking(keys: seq<Key>, descs: seq<Entry>, i: nat, j: nat, pairs: seq<Option<nat>>,
                          placed: seq<bool>)
  {
    && i <= |keys| == |pairs| && j <= |descs|
    && Rank(descs, j) == Placed(keys[..i], SolidKeys(descs))
    && (forall x | 0 <= x < i :: pairs[x] == PairOf(keys, descs, x))
    && (forall x | i <= x < |keys| :: pairs[x] == None)
    && Marked(descs, placed, Rank(descs, j))
  }

  lemma WalkStarts(keys: seq<Key>, descs: seq<Entry>, pairs: seq<Option<nat>>, placed: seq<bool>)
    requires |pairs| == |keys| && |placed| == |descs|
    requires (forall x | 0 <= x < |pairs| :: pairs[x] == None) && (forall x | 0 <= x < |placed| :: !placed[x])
    ensures Walking(keys, descs, 0, 0, pairs, placed)
  {
    assert descs[..0] == [] && keys[..0] == [];
  }

  lemma WalkEnds(keys: seq<Key>, descs: seq<Entry>, j: nat, pairs: seq<Option<nat>>, placed: seq<bool>)
    requires Walking(keys, descs, |keys|, j, pairs, placed)
    ensures pairs == Pairing(keys, descs) && Marked(descs, placed, Placed(keys, SolidKeys(descs)))
  {
    assert keys[..|keys|] == keys;
  }

  /** The key meets the descriptor at the cursor. */
  lemma WalkPairs(keys: seq<Key>, descs: seq<Entry>, i: nat, j: nat, pairs: seq<Option<nat>>, placed: seq<bool>)
    requires i < |keys| && Walking(keys, descs, i, j, pairs, placed)
    requires j < |descs| && !descs[j].combined && descs[j].key == keys[i]
    ensures Walking(keys, descs, i + 1, j + 1, pairs[i := Some(j)], placed[j := true])
  {
    AtCursor(descs, j);
    assert Assigned(keys, SolidKeys(descs), i) == Some(Rank(descs, j));
    PlacedStep(keys, SolidKeys(descs), i);
    MarkOne(descs, placed, j);
  }

  /** The key does not, or no descriptor is left. */
  lemma WalkPasses(keys: seq<Key>, descs: seq<Entry>, i: nat, j: nat, pairs: seq<Option<nat>>, placed: seq<bool>)
    requires i < |keys| && Walking(keys, descs, i, j, pairs, placed)
    requires j < |descs| ==> !descs[j].combined && descs[j].key != keys[i]
    ensures Walking(keys, descs, i + 1, j, pairs, placed)
  {
    if j < |descs| {
      AtCursor(descs, j);
    } else {
      assert descs[..j] == descs;
    }
    PlacedStep(keys, SolidKeys(descs), i);
    assert Assigned(keys, SolidKeys(descs), i) == None;
  }

  lemma WalkSkips(keys: seq<Key>, descs: seq<Entry>, i: nat, from: nat, j: nat, pairs: seq<Option<nat>>,
                  placed: seq<bool>)
    requires Walking(keys, descs, i, from, pairs, placed) && j <= |descs| && Rank(descs, j) == Rank(descs, from)
    ensures Walking(keys, descs, i, j, pairs, placed)
  {
  }

  /** `zip_best_effort`: the walk, then the two filters. */
  method ZipBestEffort(keys: seq<Key>, descs: seq<Entry>)
    returns (out: seq<Option<nat>>, unplaced: seq<nat>, transparent: seq<nat>)
    ensures out == Pairing(keys, descs)
    ensures unplaced == Unplaced(keys, descs)
    ensures transparent == Transparent(descs)
  {
    var placed;
    out, placed := WalkKeys(keys, descs);
    unplaced := CollectUnplaced(descs, placed, Placed(keys, SolidKeys(descs)));
    transparent := CollectTransparent(descs);
  }

  /** The loop over the keys, with its cursor and its two buffers. */
  method WalkKeys(keys: seq<Key>, descs: seq<Entry>) returns (pairs: seq<Option<nat>>, placed: seq<bool>)
    ensures pairs == Pairing(keys, descs)
    ensures Marked(descs, placed, Placed(keys, SolidKeys(descs)))
  {
    pairs := seq(|keys|, _ => None);
    placed := seq(|descs|, _ => false);
    var j := 0;
    WalkStarts(keys, descs, pairs, placed);
    for i := 0 to |keys|
      invariant Walking(keys, descs, i, j, pairs, placed)
    {
      j, pairs, placed := WalkKey(keys, descs, i, j, pairs, placed);
    }
    WalkEnds(keys, descs, j, pairs, placed);
  }

  method WalkKey(keys: seq<Key>, descs: seq<Entry>, i: nat, from: nat, pairs0: seq<Option<nat>>, placed0: seq<bool>)
    returns (j: nat, pairs: seq<Option<nat>>, placed: seq<bool>)
    requires i < |keys| && Walking(keys, descs, i, from, pairs0, placed0)
    ensures Walking(keys, descs, i + 1, j, pairs, placed)
  {
    j := SkipCombined(descs, from);
    pairs, placed := pairs0, placed0;
    WalkSkips(keys, descs, i, from, j, pairs, placed);
    if j < |descs| && descs[j].key == keys[i] {
      WalkPairs(keys, descs, i, j, pairs, placed);
      pairs, placed, j := pairs[i := Some(j)], placed[j := true], j + 1;
    } else {
      WalkPasses(keys, descs, i, j, pairs, placed);
    }
  }

  method SkipCombined(descs: seq<Entry>, from: nat) returns (j: nat)
    requires from <= |descs|
    ensures from <= j <= |descs| && Rank(descs, j) == Rank(descs, from)
    ensures j < |descs| ==> !descs[j].combined
  {
    j := from;
    while j < |descs| && descs[j].combined
      invariant from <= j <= |descs| && Rank(descs, j) == Rank(descs, from)
    {
      AtCursor(descs, j);
      j := j + 1;
    }
  }

  lemma MarkOne(descs: seq<Entry>, placed: seq<bool>, j: nat)
    requires j < |descs| && !descs[j].combined && Marked(descs, placed, Rank(descs, j))
    ensures Marked(descs, placed[j := true], Rank(descs, j) + 1)
  {
    forall x | 0 <= x < |descs| && x != j && !descs[x].combined ensures Rank(descs, x) != Rank(descs, j) {
      AtCursor(descs, x);
      AtCursor(descs, j);
    }
  }

  method CollectUnplaced(descs: seq<Entry>, placed: seq<bool>, ghost k: nat) returns (unplaced: seq<nat>)
    requires Marked(descs, placed, k) && k <= |Solid(descs)|
    ensures unplaced == Solid(descs)[k..]
  {
    unplaced := [];
    assert descs[..0] == [];
    for x := 0 to |descs|
      invariant unplaced == if k <= Rank(descs, x) then Solid(descs[..x])[k..] else []
    {
      AtCursor(descs, x);
      assert descs[..x + 1][..x] == descs[..x];
      if !descs[x].combined && !placed[x] {
        unplaced := unplaced + [x];
      }
    }
    assert descs[..|descs|] == descs;
  }

  method CollectTransparent(descs: seq<Entry>) returns (transparent: seq<nat>)
    ensures transparent == Transparent(descs)
  {
    transparent := [];
    for x := 0 to |descs|
      invariant transparent == Transparent(descs[..x])
    {
      assert descs[..x + 1][..x] == descs[..x];
      if descs[x].combined {
        transparent := transparent + [x];
      }
    }
    assert descs[..|descs|] == descs;
  }

  // ---------------------------------------------------------------------------
  // Optimality
  // ---------------------------------------------------------------------------

  /** `f` places every wanted key, in order, at an equal key. */
  ghost predicate Embeds(keys: seq<Key>, wanted: seq<Key>, f: seq<nat>) {
    && |f| == |wanted|
    && (forall q | 0 <= q < |f| :: f[q] < |keys| && keys[f[q]] == wanted[q])
    && (forall q | 0 < q < |f| :: f[q - 1] < f[q])
  }

  /** The keys that were paired, in order. */
  ghost function Positions(keys: seq<Key>, wanted: seq<Key>): (f: seq<nat>)
    ensures |f| == Placed(keys, wanted)
  {
    if keys == [] then []
    else
      var n := |keys| - 1;
      var k := Placed(keys[..n], wanted);
      Positions(keys[..n], wanted) + if k < |wanted| && keys[n] == wanted[k] then [n] else []
  }

  /** What the walk places is a prefix of the wanted keys, embedded at its positions. */
  lemma {:induction false} PositionsEmbed(keys: seq<Key>, wanted: seq<Key>)
    ensures Embeds(keys, wanted[..Placed(keys, wanted)], Positions(keys, wanted))
    decreases |keys|
  {
    if keys != [] {
      PositionsEmbed(keys[..|keys| - 1], wanted);
    }
  }

  lemma {:induction false} PlacedMonotone(keys: seq<Key>, wanted: seq<Key>, i: nat, j: nat)
    requires i <= j <= |keys|
    ensures Placed(keys[..i], wanted) <= Placed(keys[..j], wanted)
    decreases j
  {
    if i < j {
      PlacedMonotone(keys, wanted, i, j - 1);
      PlacedStep(keys, wanted, j - 1);
    }
  }

  /** By the place any embedding puts a wanted key, the walk has placed it. */
  lemma {:induction false} NeverBehind(keys: seq<Key>, wanted: seq<Key>, m: nat, f: seq<nat>, q: nat)
    requires m <= |wanted| && Embeds(keys, wanted[..m], f) && q < m
    ensures q < Placed(keys[..f[q] + 1], wanted)
    decreases q
  {
    PlacedStep(keys, wanted, f[q]);
    if q > 0 {
      NeverBehind(keys, wanted, m, f, q - 1);
      PlacedMonotone(keys, wanted, f[q - 1] + 1, f[q]);
    }
  }

  /** Position `q` is the first at which more than `q` are placed. */
  lemma {:induction false} PositionIsFirst(keys: seq<Key>, wanted: seq<Key>, q: nat, p: nat)
    requires p < |keys| && q < Placed(keys[..p + 1], wanted)
    ensures q < |Positions(keys, wanted)| && Positions(keys, wanted)[q] <= p
    decreases |keys|
  {
    var n := |keys| - 1;
    PlacedMonotone(keys, wanted, p + 1, |keys|);
    assert keys[..|keys|] == keys;
    if p < n {
      assert keys[..n][..p + 1] == keys[..p + 1];
      PositionIsFirst(keys[..n], wanted, q, p);
      assert Positions(keys[..n], wanted) <= Positions(keys, wanted);
    } else {
      PositionsEmbed(keys, wanted);
    }
  }

  lemma NoLater(keys: seq<Key>, wanted: seq<Key>, m: nat, f: seq<nat>, q: nat)
    requires m <= |wanted| && Embeds(keys, wanted[..m], f) && q < m
    ensures q < Placed(keys, wanted) && Positions(keys, wanted)[q] <= f[q]
  {
    NeverBehind(keys, wanted, m, f, q);
    PositionIsFirst(keys, wanted, q, f[q]);
  }

  /** Greedy optimality: no longer prefix of the wanted keys embeds in order, and no
      embedding of any prefix puts a key before the walk does. */
  lemma GreedyIsOptimal(keys: seq<Key>, wanted: seq<Key>, m: nat, f: seq<nat>)
    requires m <= |wanted| && Embeds(keys, wanted[..m], f)
    ensures m <= Placed(keys, wanted)
    ensures forall q | 0 <= q < m :: Positions(keys, wanted)[q] <= f[q]
  {
    if m > 0 {
      NoLater(keys, wanted, m, f, m - 1);
    }
    forall q | 0 <= q < m ensures Positions(keys, wanted)[q] <= f[q] {
      NoLater(keys, wanted, m, f, q);
    }
  }

  /** The positions are those of the pairing: wanted key `q` is the one given to the key at
      position `q`, and to no other. */
  lemma {:induction false} PositionsArePaired(keys: seq<Key>, wanted: seq<Key>, i: nat, q: nat)
    requires i < |keys|
    ensures Assigned(keys, wanted, i) == Some(q) <==> q < Placed(keys, wanted) && Positions(keys, wanted)[q] == i
    decreases |keys|
  {
    var n := |keys| - 1;
    var init := keys[..n];
    PositionsEmbed(init, wanted);
    if i < n {
      assert init[..i] == keys[..i];
      PositionsArePaired(init, wanted, i, q);
      assert Assigned(init, wanted, i) == Assigned(keys, wanted, i);
    }
  }

  /** Nothing is left unplaced exactly when all the placeable descriptors embed in order. */
  lemma NothingUnplacedExactly(keys: seq<Key>, descs: seq<Entry>)
    ensures Unplaced(keys, descs) == [] <==> exists f :: Embeds(keys, SolidKeys(descs), f)
  {
    var wanted := SolidKeys(descs);
    PositionsEmbed(keys, wanted);
    if Unplaced(keys, descs) == [] {
      assert wanted[..Placed(keys, wanted)] == wanted;
      assert Embeds(keys, wanted, Positions(keys, wanted));
    }
    if f :| Embeds(keys, wanted, f) {
      assert wanted[..|wanted|] == wanted;
      GreedyIsOptimal(keys, wanted, |wanted|, f);
    }
  }

  // ---------------------------------------------------------------------------
  // Order
  // ---------------------------------------------------------------------------

  lemma {:induction false} SolidAscends(descs: seq<Entry>)
    ensures forall p, q | 0 <= p < q < |Solid(descs)| :: Solid(descs)[p] < Solid(descs)[q]
    decreases |descs|
  {
    if descs != [] {
      SolidAscends(descs[..|descs| - 1]);
    }
  }

  ghost predicate Ascending(at: seq<nat>) {
    forall p, q | 0 <= p < q < |at| :: at[p] < at[q]
  }

  /** The skipped indices are those of the combined descriptors and no others, in order. */
  lemma {:induction false} TransparentExactly(descs: seq<Entry>)
    ensures Ascending(Transparent(descs))
    ensures forall d: nat :: d in Transparent(descs) <==> d < |descs| && descs[d].combined
    decreases |descs|
  {
    if descs != [] {
      var n := |descs| - 1;
      TransparentExactly(descs[..n]);
      assert descs[..n] + [descs[n]] == descs;
    }
  }

  /** The placeable indices are all the others, in order. */
  lemma {:induction false} SolidExactly(descs: seq<Entry>)
    ensures Ascending(Solid(descs))
    ensures forall d: nat :: d in Solid(descs) <==> d < |descs| && !descs[d].combined
    decreases |descs|
  {
    if descs != [] {
      var n := |descs| - 1;
      SolidExactly(descs[..n]);
      assert descs[..n] + [descs[n]] == descs;
    }
  }

  /** Later keys get later descriptors, each with the key's own key and not combined. */
  lemma PairingAscends(keys: seq<Key>, descs: seq<Entry>)
    ensures forall i, j | 0 <= i < j < |keys| && PairOf(keys, descs, i).Some? && PairOf(keys, descs, j).Some? ::
              PairOf(keys, descs, i).value < PairOf(keys, descs, j).value
    ensures forall i | 0 <= i < |keys| && PairOf(keys, descs, i).Some? ::
              var d := descs[PairOf(keys, descs, i).value]; d.key == keys[i] && !d.combined
  {
    var wanted := SolidKeys(descs);
    SolidAscends(descs);
    forall i, j | 0 <= i < j < |keys| && PairOf(keys, descs, i).Some? && PairOf(keys, descs, j).Some?
      ensures PairOf(keys, descs, i).value < PairOf(keys, descs, j).value
    {
      AssignedAscends(keys, wanted, i, j);
    }
  }

  lemma AssignedAscends(keys: seq<Key>, wanted: seq<Key>, i: nat, j: nat)
    requires i < j < |keys| && Assigned(keys, wanted, i).Some? && Assigned(keys, wanted, j).Some?
    ensures Assigned(keys, wanted, i).value < Assigned(keys, wanted, j).value
  {
    PlacedStep(keys, wanted, i);
    PlacedMonotone(keys, wanted, i + 1, j);
  }

  // ---------------------------------------------------------------------------
  // When the walk recovers the truth
  // ---------------------------------------------------------------------------

  /** An order-preserving pairing of keys with equal wanted keys. */
  ghost predicate IsPairing(keys: seq<Key>, wanted: seq<Key>, truth: seq<Option<nat>>) {
    && |truth| == |keys|
    && (forall i | 0 <= i < |truth| && truth[i].Some? ::
          truth[i].value < |wanted| && keys[i] == wanted[truth[i].value])
    && (forall i, j | 0 <= i < j < |truth| && truth[i].Some? && truth[j].Some? ::
          truth[i].value < truth[j].value)
  }

  /** How many keys before `i` are paired: the wanted key pending there. */
  ghost function Pending(truth: seq<Option<nat>>, i: nat): nat
    requires i <= |truth|
  {
    if i == 0 then 0 else Pending(truth, i - 1) + if truth[i - 1].Some? then 1 else 0
  }

  /** The pairing the walk makes. */
  ghost function Walked(keys: seq<Key>, wanted: seq<Key>): (out: seq<Option<nat>>)
    ensures |out| == |keys|
    ensures forall i | 0 <= i < |keys| :: out[i] == Assigned(keys, wanted, i)
  {
    seq(|keys|, i requires 0 <= i < |keys| => Assigned(keys, wanted, i))
  }

  /** Every paired key takes the wanted key pending there: none was skipped. */
  ghost predicate NoneSkipped(truth: seq<Option<nat>>) {
    forall i | 0 <= i < |truth| && truth[i].Some? :: truth[i].value == Pending(truth, i)
  }

  /** No unpaired key equals the wanted key pending at its position. */
  ghost predicate NoImpostor(keys: seq<Key>, wanted: seq<Key>, truth: seq<Option<nat>>)
    requires |truth| == |keys|
  {
    forall i | 0 <= i < |truth| && truth[i].None? ::
      Pending(truth, i) < |wanted| ==> keys[i] != wanted[Pending(truth, i)]
  }

  /** The walk recovers a pairing exactly when that skips no wanted key and no unpaired key
      equals the one pending at its position. */
  lemma RecoversExactly(keys: seq<Key>, wanted: seq<Key>, truth: seq<Option<nat>>)
    requires IsPairing(keys, wanted, truth)
    ensures Walked(keys, wanted) == truth <==> (NoneSkipped(truth) && NoImpostor(keys, wanted, truth))
  {
    if Walked(keys, wanted) == truth {
      forall i | 0 <= i < |truth| ensures Pending(truth, i) == Placed(keys[..i], wanted) {
        PendingWalked(keys, wanted, i);
      }
    }
    if NoneSkipped(truth) && NoImpostor(keys, wanted, truth) {
      forall i | 0 <= i < |truth| ensures Walked(keys, wanted)[i] == truth[i] {
        PendingPlaced(keys, wanted, truth, i);
      }
    }
  }

  lemma {:induction false} PendingWalked(keys: seq<Key>, wanted: seq<Key>, i: nat)
    requires i <= |keys|
    ensures Pending(Walked(keys, wanted), i) == Placed(keys[..i], wanted)
    decreases i
  {
    if i > 0 {
      PendingWalked(keys, wanted, i - 1);
      PlacedStep(keys, wanted, i - 1);
    }
  }

  lemma PendingPlaced(keys: seq<Key>, wanted: seq<Key>, truth: seq<Option<nat>>, i: nat)
    requires IsPairing(keys, wanted, truth) && i <= |truth|
    requires NoneSkipped(truth) && NoImpostor(keys, wanted, truth)
    ensures Pending(truth, i) == Placed(keys[..i], wanted)
  {
    forall x | 0 <= x < |truth| ensures KeepsPace(keys, wanted, truth, x) {
      if Pending(truth, x) == Placed(keys[..x], wanted) {
        PairedAsTrue(keys, wanted, truth, x);
      }
    }
    PendingAtPace(keys, wanted, truth, i);
  }

  /** Where the walk has placed as many as the truth, it pairs the key exactly when that does. */
  ghost predicate KeepsPace(keys: seq<Key>, wanted: seq<Key>, truth: seq<Option<nat>>, x: nat)
    requires x < |truth| == |keys|
  {
    Pending(truth, x) == Placed(keys[..x], wanted) ==> (Assigned(keys, wanted, x).Some? <==> truth[x].Some?)
  }

  lemma {:induction false} PendingAtPace(keys: seq<Key>, wanted: seq<Key>, truth: seq<Option<nat>>, i: nat)
    requires |truth| == |keys| && i <= |truth|
    requires forall x | 0 <= x < |truth| :: KeepsPace(keys, wanted, truth, x)
    ensures Pending(truth, i) == Placed(keys[..i], wanted)
    decreases i
  {
    if i > 0 {
      var last := i - 1;
      PendingAtPace(keys, wanted, truth, last);
      assert KeepsPace(keys, wanted, truth, last);
      PlacedStep(keys, wanted, last);
    }
  }

  lemma PairedAsTrue(keys: seq<Key>, wanted: seq<Key>, truth: seq<Option<nat>>, i: nat)
    requires IsPairing(keys, wanted, truth) && i < |truth|
    requires NoneSkipped(truth) && NoImpostor(keys, wanted, truth) && Pending(truth, i) == Placed(keys[..i], wanted)
    ensures Assigned(keys, wanted, i).Some? <==> truth[i].Some?
  {
    if truth[i].Some? {
      assert truth[i].value == Pending(truth, i);
    }
  }

  /** A pairing of every wanted key skips none. */
  lemma {:induction false} CompleteSkipsNone(keys: seq<Key>, wanted: seq<Key>, truth: seq<Option<nat>>)
    requires IsPairing(keys, wanted, truth) && Pending(truth, |truth|) == |wanted|
    ensures NoneSkipped(truth)
  {
    forall i | 0 <= i < |truth| && truth[i].Some? ensures truth[i].value == Pending(truth, i) {
      AtLeastPending(keys, wanted, truth, i);
      AtMostLeft(keys, wanted, truth, i, |truth|);
    }
  }

  /** Below a paired value lie those paired before it. */
  lemma {:induction false} AtLeastPending(keys: seq<Key>, wanted: seq<Key>, truth: seq<Option<nat>>, i: nat)
    requires IsPairing(keys, wanted, truth) && i < |truth| && truth[i].Some?
    ensures Pending(truth, i) <= truth[i].value
  {
    PendingBelow(keys, wanted, truth, i, truth[i].value);
  }

  lemma {:induction false} PendingBelow(keys: seq<Key>, wanted: seq<Key>, truth: seq<Option<nat>>, i: nat, bound: nat)
    requires IsPairing(keys, wanted, truth) && i <= |truth|
    requires forall x | 0 <= x < i && truth[x].Some? :: truth[x].value < bound
    ensures Pending(truth, i) <= bound
    decreases i
  {
    if i > 0 {
      if truth[i - 1].Some? {
        PendingBelow(keys, wanted, truth, i - 1, truth[i - 1].value);
      } else {
        PendingBelow(keys, wanted, truth, i - 1, bound);
      }
    }
  }

  /** Above a paired value there is room for those paired from it on. */
  lemma {:induction false} AtMostLeft(keys: seq<Key>, wanted: seq<Key>, truth: seq<Option<nat>>, i: nat, j: nat)
    requires IsPairing(keys, wanted, truth) && i < j <= |truth| && truth[i].Some?
    ensures Pending(truth, j) - Pending(truth, i) <= |wanted| - truth[i].value
    decreases j - i
  {
    RoomLeft(keys, wanted, truth, i, j);
  }

  lemma {:induction false} RoomLeft(keys: seq<Key>, wanted: seq<Key>, truth: seq<Option<nat>>, i: nat, j: nat)
    requires IsPairing(keys, wanted, truth) && i < j <= |truth| && truth[i].Some?
    ensures exists x :: i <= x < j && truth[x].Some?
                     && Pending(truth, j) - Pending(truth, i) <= truth[x].value - truth[i].value + 1
    decreases j - i
  {
    if j == i + 1 {
      assert truth[i].Some?;
    } else {
      RoomLeft(keys, wanted, truth, i, j - 1);
      var x :| i <= x < j - 1 && truth[x].Some?
            && Pending(truth, j - 1) - Pending(truth, i) <= truth[x].value - truth[i].value + 1;
      if truth[j - 1].Some? {
        assert truth[x].value < truth[j - 1].value;
      }
    }
  }

  /** The documented shift limitation, made exact: when every placeable descriptor was
      fetched, the walk recovers the true pairing if and only if no extra texture has the
      exact geometry of the descriptor pending at its position. */
  lemma ShiftLimitation(keys: seq<Key>, wanted: seq<Key>, truth: seq<Option<nat>>)
    requires IsPairing(keys, wanted, truth) && Pending(truth, |truth|) == |wanted|
    ensures Walked(keys, wanted) == truth <==> NoImpostor(keys, wanted, truth)
  {
    CompleteSkipsNone(keys, wanted, truth);
    RecoversExactly(keys, wanted, truth);
  }

  // ---------------------------------------------------------------------------
  // The same on descriptor indices
  // ---------------------------------------------------------------------------

  /** An order-preserving pairing of keys with placeable descriptors of the same geometry. */
  ghost predicate TruePairing(keys: seq<Key>, descs: seq<Entry>, truth: seq<Option<nat>>) {
    && |truth| == |keys|
    && (forall i | 0 <= i < |truth| && truth[i].Some? ::
          truth[i].value < |descs| && !descs[truth[i].value].combined && descs[truth[i].value].key == keys[i])
    && (forall i, j | 0 <= i < j < |truth| && truth[i].Some? && truth[j].Some? ::
          truth[i].value < truth[j].value)
  }

  /** The pairing by rank among the placeable descriptors. */
  ghost function Ranked(keys: seq<Key>, descs: seq<Entry>, truth: seq<Option<nat>>): (r: seq<Option<nat>>)
    requires TruePairing(keys, descs, truth)
    ensures |r| == |truth|
    ensures forall i | 0 <= i < |truth| ::
              r[i] == if truth[i].Some? then Some(Rank(descs, truth[i].value)) else None
  {
    seq(|truth|, i requires 0 <= i < |truth| => if truth[i].Some? then Some(Rank(descs, truth[i].value)) else None)
  }

  lemma RankAscends(descs: seq<Entry>, x: nat, y: nat)
    requires x < y < |descs| && !descs[x].combined && !descs[y].combined
    ensures Rank(descs, x) < Rank(descs, y)
  {
    AtCursor(descs, x);
    AtCursor(descs, y);
    SolidAscends(descs);
  }

  lemma RankedIsPairing(keys: seq<Key>, descs: seq<Entry>, truth: seq<Option<nat>>)
    requires TruePairing(keys, descs, truth)
    ensures IsPairing(keys, SolidKeys(descs), Ranked(keys, descs, truth))
  {
    var r := Ranked(keys, descs, truth);
    forall i | 0 <= i < |r| && r[i].Some?
      ensures r[i].value < |Solid(descs)| && keys[i] == SolidKeys(descs)[r[i].value]
    {
      AtCursor(descs, truth[i].value);
    }
    forall i, j | 0 <= i < j < |r| && r[i].Some? && r[j].Some? ensures r[i].value < r[j].value {
      RankAscends(descs, truth[i].value, truth[j].value);
    }
  }

  lemma PairingIsRanked(keys: seq<Key>, descs: seq<Entry>, truth: seq<Option<nat>>)
    requires TruePairing(keys, descs, truth)
    ensures Pairing(keys, descs) == truth <==> Walked(keys, SolidKeys(descs)) == Ranked(keys, descs, truth)
  {
    var out, walked, r := Pairing(keys, descs), Walked(keys, SolidKeys(descs)), Ranked(keys, descs, truth);
    forall i | 0 <= i < |keys| ensures out[i] == truth[i] <==> walked[i] == r[i] {
      SamePlace(keys, descs, i, truth[i]);
    }
  }

  lemma SamePlace(keys: seq<Key>, descs: seq<Entry>, i: nat, t: Option<nat>)
    requires i < |keys| && (t.Some? ==> t.value < |descs| && !descs[t.value].combined)
    ensures PairOf(keys, descs, i) == t
       <==> Assigned(keys, SolidKeys(descs), i) == if t.Some? then Some(Rank(descs, t.value)) else None
  {
    if t.Some? {
      AtCursor(descs, t.value);
      SolidAscends(descs);
    }
  }

  /** What the join is for: it gives every key its true descriptor exactly when the truth
      skips no placeable descriptor and no extra key has the geometry of the one pending there. */
  lemma TruthRecovered(keys: seq<Key>, descs: seq<Entry>, truth: seq<Option<nat>>)
    requires TruePairing(keys, descs, truth)
    ensures var r := Ranked(keys, descs, truth);
            Pairing(keys, descs) == truth <==> NoneSkipped(r) && NoImpostor(keys, SolidKeys(descs), r)
  {
    RankedIsPairing(keys, descs, truth);
    PairingIsRanked(keys, descs, truth);
    RecoversExactly(keys, SolidKeys(descs), Ranked(keys, descs, truth));
  }

  // ---------------------------------------------------------------------------
  // Who is given any descriptor at all
  // ---------------------------------------------------------------------------

  /** `wanted[..m]` is the longest prefix that embeds in the keys in order. */
  ghost predicate Longest(keys: seq<Key>, wanted: seq<Key>, m: nat) {
    && m <= |wanted|
    && (exists f :: Embeds(keys, wanted[..m], f))
    && (forall l: nat, f | m < l <= |wanted| :: !Embeds(keys, wanted[..l], f))
  }

  lemma LongestIsPlaced(keys: seq<Key>, wanted: seq<Key>, m: nat)
    ensures Longest(keys, wanted, m) <==> m == Placed(keys, wanted)
  {
    var k := Placed(keys, wanted);
    PositionsEmbed(keys, wanted);
    assert Embeds(keys, wanted[..k], Positions(keys, wanted));
    forall l: nat, f | l <= |wanted| && Embeds(keys, wanted[..l], f) ensures l <= k {
      GreedyIsOptimal(keys, wanted, l, f);
    }
  }

  /** After the longest prefix that embeds in the keys before `i`, the next is the key at `i`. */
  ghost predicate Awaited(keys: seq<Key>, wanted: seq<Key>, i: nat)
    requires i < |keys|
  {
    exists m: nat :: Longest(keys[..i], wanted, m) && m < |wanted| && wanted[m] == keys[i]
  }

  lemma GivenExactly(keys: seq<Key>, wanted: seq<Key>, i: nat)
    requires i < |keys|
    ensures Assigned(keys, wanted, i).Some? <==> Awaited(keys, wanted, i)
  {
    var k := Placed(keys[..i], wanted);
    LongestIsPlaced(keys[..i], wanted, k);
    forall m: nat | Longest(keys[..i], wanted, m) ensures m == k {
      LongestIsPlaced(keys[..i], wanted, m);
    }
  }

  /** Every key that has a descriptor is given one, if not its own. */
  ghost predicate GivesAll(keys: seq<Key>, wanted: seq<Key>, truth: seq<Option<nat>>)
    requires |truth| == |keys|
  {
    forall i | 0 <= i < |truth| && truth[i].Some? :: Assigned(keys, wanted, i).Some?
  }

  /** That holds exactly when every key with a descriptor is awaited where it comes: an earlier
      descriptor that was not fetched blocks all behind it. */
  lemma GivesAllExactly(keys: seq<Key>, wanted: seq<Key>, truth: seq<Option<nat>>)
    requires |truth| == |keys|
    ensures GivesAll(keys, wanted, truth)
       <==> forall i | 0 <= i < |truth| && truth[i].Some? :: Awaited(keys, wanted, i)
  {
    forall i | 0 <= i < |truth| ensures Assigned(keys, wanted, i).Some? <==> Awaited(keys, wanted, i) {
      GivenExactly(keys, wanted, i);
    }
  }

  /** When every placeable descriptor was fetched, it holds exactly when no extra key has the
      geometry of the descriptor pending at its position. */
  lemma CompleteGivesAll(keys: seq<Key>, wanted: seq<Key>, truth: seq<Option<nat>>)
    requires IsPairing(keys, wanted, truth) && Pending(truth, |truth|) == |wanted|
    ensures GivesAll(keys, wanted, truth) <==> NoImpostor(keys, wanted, truth)
  {
    var walked := Walked(keys, wanted);
    ShiftLimitation(keys, wanted, truth);
    if GivesAll(keys, wanted, truth) {
      CompleteSkipsNone(keys, wanted, truth);
      forall i | 0 <= i <= |keys| ensures Pending(walked, i) == Pending(truth, i) == Placed(keys[..i], wanted) {
        PendingAtLeast(walked, truth, 0, i);
        PendingAtLeast(walked, truth, i, |keys|);
        PendingWalked(keys, wanted, |keys|);
        PendingWalked(keys, wanted, i);
      }
      forall i | 0 <= i < |keys| ensures walked[i] == truth[i] {
        assert Pending(walked, i + 1) == Pending(truth, i + 1);
      }
    }
  }

  /** If no key meets the first wanted one, nothing is placed. */
  lemma {:induction false} NothingPlaced(keys: seq<Key>, wanted: seq<Key>, n: nat)
    requires n <= |keys| && wanted != [] && forall i | 0 <= i < |keys| :: keys[i] != wanted[0]
    ensures Placed(keys[..n], wanted) == 0
    decreases n
  {
    if n > 0 {
      NothingPlaced(keys, wanted, n - 1);
      PlacedStep(keys, wanted, n - 1);
    }
  }

  lemma NothingPaired(keys: seq<Key>, descs: seq<Entry>)
    requires Solid(descs) != [] && forall i | 0 <= i < |keys| :: keys[i] != SolidKeys(descs)[0]
    ensures forall i | 0 <= i < |keys| :: Pairing(keys, descs)[i] == None
    ensures Unplaced(keys, descs) == Solid(descs)
  {
    var wanted := SolidKeys(descs);
    forall i | 0 <= i < |keys| ensures Pairing(keys, descs)[i] == None {
      NothingPlaced(keys, wanted, i);
    }
    NothingPlaced(keys, wanted, |keys|);
    assert keys[..|keys|] == keys;
  }

  /** Where all of `fewer` is paired in `more`, at least as many are pending. */
  lemma {:induction false} PendingAtLeast(more: seq<Option<nat>>, fewer: seq<Option<nat>>, i: nat, j: nat)
    requires |more| == |fewer| && i <= j <= |more|
    requires forall x | 0 <= x < |more| && fewer[x].Some? :: more[x].Some?
    ensures Pending(more, j) - Pending(more, i) >= Pending(fewer, j) - Pending(fewer, i)
    decreases j - i
  {
    if i < j {
      PendingAtLeast(more, fewer, i, j - 1);
    }
  }
}
