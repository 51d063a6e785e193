/** The striped two-generation map from keys to buckets (server/store.go). */
module KeyStore {
  import opened Types
  import Generations

  /** One key's state: a timestamp, and the mutex that guards it. */
  class BucketState {
    var tat: int64
    var locked: bool

    constructor ()
      ensures tat == 0 && !locked
    {
      tat, locked := 0, false;
    }

    method Lock()
      requires !locked
      modifies this`locked
      ensures locked
    {
      locked := true;
    }

    method Unlock()
      requires locked
      modifies this`locked
      ensures !locked
    {
      locked := false;
    }
  }

  /** No two keys share a bucket. */
  ghost predicate OneOwner(m: map<string, BucketState>) {
    forall j, k :: j in m && k in m && m[j] == m[k] ==> j == k
  }

  lemma OneOwnerUpdate(m: map<string, BucketState>, key: string, b: BucketState)
    requires OneOwner(m)
    requires if key in m then b == m[key] else b !in m.Values
    ensures OneOwner(m[key := b])
  {
    var n := m[key := b];
    forall j, k | j in n && k in n && n[j] == n[k]
      ensures j == k
    {
      if key !in m {
        assert j != key ==> m[j] in m.Values;
        assert k != key ==> m[k] in m.Values;
      }
    }
  }

  /** Hot is exactly the keys of this epoch, cold exactly those of the last one. */
  ghost predicate Generational(hot: map<string, BucketState>, cold: map<string, BucketState>,
                               lastTouch: map<string, nat>, epoch: nat)
  {
    && (forall k :: k in lastTouch ==> lastTouch[k] <= epoch)
    && (forall k :: k in hot <==> k in lastTouch && lastTouch[k] == epoch)
    && (forall k :: k in cold <==> k in lastTouch && lastTouch[k] + 1 == epoch)
  }

  /** One slice of the key space. The ghost fields record the history: how often the
      stripe has rotated and when each key it was ever asked for was last looked up. */
  class Stripe {
    var hot: map<string, BucketState>
    var cold: map<string, BucketState>
    ghost var epoch: nat
    ghost var lastTouch: map<string, nat>

    constructor ()
      ensures Valid() && hot == cold == map[] && lastTouch == map[]
    {
      hot, cold, epoch, lastTouch := map[], map[], 0, map[];
    }

    ghost predicate Valid()
      reads this
    {
      Generational(hot, cold, lastTouch, epoch)
    }

    function Live(): map<string, BucketState>
      reads this
    {
      cold + hot
    }

    method GetOrCreate(key: string) returns (b: BucketState)
      requires Valid()
      modifies this
      ensures Valid() && epoch == old(epoch) && lastTouch == old(lastTouch)[key := epoch]
      ensures hot == old(hot)[key := b] && cold == old(cold) - {key}
      ensures key in old(Live()) ==> b == old(Live())[key]
      ensures key !in old(Live()) ==> fresh(b) && b.tat == 0 && !b.locked
    {
      if key in hot {
        b := hot[key];
      } else if key in cold {
        b := cold[key];
        hot := hot[key := b];
        cold := cold - {key};
      } else {
        b := new BucketState();
        hot := hot[key := b];
      }
      assert hot == old(hot)[key := b] && cold == old(cold) - {key};
      lastTouch := lastTouch[key := epoch];
    }

    method Rotate()
      requires Valid()
      modifies this
      ensures Valid() && epoch == old(epoch) + 1 && lastTouch == old(lastTouch)
      ensures cold == old(hot) && hot == map[]
    {
      cold := hot;
      hot := map[];
      epoch := epoch + 1;
    }

    /** A key is live exactly when it was looked up in this epoch or the one before. */
    lemma LiveIffRecent(key: string)
      requires Valid()
      ensures key in Live() <==> key in lastTouch && lastTouch[key] + 1 >= epoch
      ensures hot.Keys !! cold.Keys
    {
    }

    method Size() returns (n: nat)
      requires Valid()
      ensures n == |Live()|
    {
      n := |hot| + |cold|;
      assert Live().Keys == hot.Keys + cold.Keys;
      assert |Live().Keys| == |hot.Keys| + |cold.Keys|;
    }
  }

  /** The striped store. The hash is any function. The ghost fields gather every stripe's
      maps: all live buckets, the keys of the hot ones, and every bucket ever handed out. */
  class Store {
    const stripes: seq<Stripe>
    const index: string -> nat  // the hash modulo the number of stripes
    ghost var live: map<string, BucketState>
    ghost var hotKeys: set<string>
    ghost var buckets: set<BucketState>

    constructor (numStripes: int, hash: string -> nat)
      ensures Valid() && live == map[] && hotKeys == {} && buckets == {}
      ensures |stripes| == if numStripes <= 0 then 256 else numStripes
      ensures forall k :: index(k) == hash(k) % |stripes|
      ensures fresh(stripes)
    {
      var n := if numStripes <= 0 then 256 else numStripes;
      var made: seq<Stripe> := [];
      while |made| < n
        invariant |made| <= n
        invariant fresh(made)
        invariant forall i, j :: 0 <= i < j < |made| ==> made[i] != made[j]
        invariant forall i :: 0 <= i < |made| ==>
                    made[i].Valid() && made[i].hot == made[i].cold == map[] && made[i].lastTouch == map[]
      {
        var s := new Stripe();
        made := made + [s];
      }
      stripes := made;
      index := k => hash(k) % n;
      live, hotKeys, buckets := map[], {}, {};
    }

    /** The buckets of stripe i under the given keys. */
    function Part(m: map<string, BucketState>, keys: set<string>, i: nat): map<string, BucketState> {
      map k | k in m && k in keys && index(k) == i :: m[k]
    }

    ghost predicate Valid()
      reads this, stripes
    {
      && (forall k :: index(k) < |stripes|)
      && (forall i, j :: 0 <= i < j < |stripes| ==> stripes[i] != stripes[j])
      && (forall i :: 0 <= i < |stripes| ==>
            && stripes[i].Valid()
            && stripes[i].hot == Part(live, hotKeys, i)
            && stripes[i].cold == Part(live, live.Keys - hotKeys, i))
      && hotKeys <= live.Keys
      && OneOwner(live)
      && (forall k :: k in live ==> live[k] in buckets)
    }

    /** The timestamps the store holds, by generation. */
    ghost function View(): Generations.Gens
      requires Valid()
      reads this, stripes, buckets
    {
      Generations.Gens(map k | k in live && k in hotKeys :: live[k].tat,
                       map k | k in live && k !in hotKeys :: live[k].tat)
    }

    /** stripeFor(key).getOrCreate(key). */
    method Lookup(key: string) returns (b: BucketState)
      requires Valid()
      modifies this, stripes[index(key)]
      ensures Valid() && buckets == old(buckets) + {b}
      ensures live == old(live)[key := b] && hotKeys == old(hotKeys) + {key}
      ensures key in old(live) ==> b == old(live)[key]
      ensures key !in old(live) ==> fresh(b) && b.tat == 0 && !b.locked
    {
      ghost var m, h := live, hotKeys;
      LiveInStripe(key);
      b := stripes[index(key)].GetOrCreate(key);
      assert key !in m ==> b !in m.Values;
      OneOwnerUpdate(m, key, b);
      PartUpdate(m, h, key, b);
      live, hotKeys, buckets := m[key := b], h + {key}, buckets + {b};
    }

    lemma LiveInStripe(key: string)
      requires Valid()
      ensures var s := stripes[index(key)];
              && (key in live <==> key in s.Live())
              && (key in live ==> live[key] == s.Live()[key])
    {
      var s := stripes[index(key)];
      assert s.hot == Part(live, hotKeys, index(key)) && s.cold == Part(live, live.Keys - hotKeys, index(key));
    }

    lemma PartUpdate(m: map<string, BucketState>, h: set<string>, key: string, b: BucketState)
      requires key in m ==> b == m[key]
      ensures var n, g := m[key := b], h + {key};
              && (forall i :: Part(n, g, i) == if i == index(key) then Part(m, h, i)[key := b] else Part(m, h, i))
              && (forall i :: Part(n, n.Keys - g, i) == Part(m, m.Keys - h, i) - {key})
              && (forall i :: i != index(key) ==> Part(n, n.Keys - g, i) == Part(m, m.Keys - h, i))
    {
    }

    /** One stripe's rotation: its hot keys turn cold and its cold ones are dropped. */
    method RotateStripe(i: nat)
      requires Valid() && i < |stripes|
      modifies this, stripes[i]
      ensures Valid() && buckets == old(buckets)
      ensures live == Survivors(old(live), old(hotKeys), i)
      ensures hotKeys == set k | k in old(hotKeys) && index(k) != i
    {
      ghost var m, h := live, hotKeys;
      stripes[i].Rotate();
      PartRotate(m, h, i);
      live, hotKeys := Survivors(m, h, i), set k | k in h && index(k) != i;
    }

    /** What a rotation of stripe i keeps. */
    function Survivors(m: map<string, BucketState>, h: set<string>, i: nat): map<string, BucketState> {
      map k | k in m && (index(k) != i || k in h) :: m[k]
    }

    lemma PartRotate(m: map<string, BucketState>, h: set<string>, i: nat)
      ensures var n, g := Survivors(m, h, i), set k | k in h && index(k) != i;
              && (forall j :: Part(n, g, j) == if j == i then map[] else Part(m, h, j))
              && (forall j :: Part(n, n.Keys - g, j) == if j == i then Part(m, h, j) else Part(m, m.Keys - h, j))
    {
    }

    /** The number of live keys, added up stripe by stripe. */
    method KeyCountEstimate() returns (total: nat)
      requires Valid()
      ensures total == |live|
    {
      total := 0;
      AllBelow();
      for i := 0 to |stripes|
        invariant total == |LiveBelow(i)|
      {
        var n := stripes[i].Size();
        LiveBelowStep(i);
        total := total + n;
      }
    }

    /** The live keys of the first n stripes. */
    ghost function LiveBelow(n: nat): set<string>
      reads this
    {
      set k | k in live && index(k) < n
    }

    lemma AllBelow()
      requires Valid()
      ensures |LiveBelow(|stripes|)| == |live| && |LiveBelow(0)| == 0
    {
      assert LiveBelow(|stripes|) == live.Keys;
      assert LiveBelow(0) == {};
    }

    lemma LiveBelowStep(i: nat)
      requires Valid() && i < |stripes|
      ensures |LiveBelow(i + 1)| == |LiveBelow(i)| + |stripes[i].Live()|
    {
      var here := stripes[i].Live().Keys;
      assert here == set k | k in live && index(k) == i by {
        assert stripes[i].hot == Part(live, hotKeys, i) && stripes[i].cold == Part(live, live.Keys - hotKeys, i);
      }
      assert LiveBelow(i + 1) == LiveBelow(i) + here;
      assert LiveBelow(i) !! here;
    }
  }
}
