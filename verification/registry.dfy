/** The AI registry: named factories, the pool of AI slots a game draws its bots
    from, and the draw itself. F stands for a factory; the registry only stores and
    hands them out. */
module Registry {
  import opened Wrappers
  import opened Rules
  import Pseudonym

  datatype RegistryError =
    | DuplicateName(name: string)
    | NilFactory
    | TooFewNames
    | UnknownName(name: string)
    | NotEnoughAI

  type Registry<F> = map<string, F>

  /** A pool slot: the factory and the key its pseudonym is looked up under. */
  datatype Slot<F> = Slot(factory: F, key: string)

  /** Registers a factory under a new name; a taken name or a missing (nil) factory
      is refused and the registry stays as it was. */
  function RegisterAI<F>(reg: Registry<F>, name: string, makeai: Option<F>): (r: Result<Registry<F>, RegistryError>)
    ensures r == Err(DuplicateName(name)) <==> name in reg
    ensures r == Err(NilFactory) <==> name !in reg && makeai.None?
    ensures r.Ok? ==> makeai.Some? && r.value == reg[name := makeai.value]
    ensures r.Ok? ==> r.value.Keys == reg.Keys + {name} && name !in reg
  {
    if name in reg then Err(DuplicateName(name))
    else if makeai.None? then Err(NilFactory)
    else Ok(reg[name := makeai.value])
  }

  // ---------------------------------------------------------------------------
  // Decimal numbers, as written by the %d verb

  function DigitChar(d: int): (c: char)
    requires 0 <= d < 10
    ensures '0' <= c <= '9'
  {
    ['0', '1', '2', '3', '4', '5', '6', '7', '8', '9'][d]
  }

  /** The decimal representation of n without leading zeros. */
  function NatToString(n: nat): (r: string)
    ensures |r| >= 1
    ensures forall i :: 0 <= i < |r| ==> '0' <= r[i] <= '9'
    ensures n > 0 ==> r[0] != '0'
    decreases n
  {
    if n < 10 then [DigitChar(n)]
    else NatToString(n / 10) + [DigitChar(n % 10)]
  }

  /** The value of a string of decimal digits. */
  function StringToNat(s: string): nat
    requires forall i :: 0 <= i < |s| ==> '0' <= s[i] <= '9'
    decreases |s|
  {
    if |s| == 0 then 0
    else StringToNat(s[..|s| - 1]) * 10 + (s[|s| - 1] as int - '0' as int)
  }

  /** Reading back a written number gives the number, so writing is injective. */
  lemma {:induction false} NatToStringRoundTrip(n: nat)
    ensures StringToNat(NatToString(n)) == n
    decreases n
  {
    var s := NatToString(n);
    if n < 10 {
      assert s[..0] == [];
    } else {
      NatToStringRoundTrip(n / 10);
      assert s[..|s| - 1] == NatToString(n / 10);
    }
  }

  lemma NatToStringInjective(a: nat, b: nat)
    requires NatToString(a) == NatToString(b)
    ensures a == b
  {
    NatToStringRoundTrip(a);
    NatToStringRoundTrip(b);
  }

  // ---------------------------------------------------------------------------
  // Pool update

  /** How often x occurs in s. */
  function Count(s: seq<string>, x: string): (r: nat)
    ensures r <= |s|
  {
    if |s| == 0 then 0 else Count(s[..|s| - 1], x) + (if s[|s| - 1] == x then 1 else 0)
  }

  /** The pseudonym key of the k-th slot of the AI called name. */
  function PoolKey(name: string, k: nat): string
  {
    "AI-" + name + "-" + NatToString(k)
  }

  /** The slots a successful pool update builds: slot i carries the factory of ais[i]
      and the key numbered by how often ais[i] occurs in ais[..i + 1]. */
  ghost predicate PoolOf<F>(reg: Registry<F>, ais: seq<string>, pool: seq<Slot<F>>)
  {
    && |pool| == |ais|
    && (forall i :: 0 <= i < |ais| ==> ais[i] in reg)
    && (forall i :: 0 <= i < |ais| ==> pool[i] == SlotFor(reg, ais, i))
  }

  /** The slot of ais[i] in an updated pool. */
  function SlotFor<F>(reg: Registry<F>, ais: seq<string>, i: int): Slot<F>
    requires 0 <= i < |ais| && ais[i] in reg
  {
    Slot(reg[ais[i]], PoolKey(ais[i], Count(ais[..i + 1], ais[i])))
  }

  /** Sets the pool to one slot per given name; fewer than PlayersPerGame names or an
      unknown name is refused and the pool stays as it was. */
  method UpdateAIPool<F>(reg: Registry<F>, pool: seq<Slot<F>>, ais: seq<string>)
    returns (newPool: seq<Slot<F>>, err: Option<RegistryError>)
    ensures err.Some? ==> newPool == pool
    ensures err == Some(TooFewNames) <==> |ais| < PlayersPerGame
    ensures err.Some? && err != Some(TooFewNames) ==>
              err.value.UnknownName? && err.value.name in ais && err.value.name !in reg
    ensures err.None? <==> |ais| >= PlayersPerGame && forall i :: 0 <= i < |ais| ==> ais[i] in reg
    ensures err.None? ==> PoolOf(reg, ais, newPool)
  {
    if |ais| < PlayersPerGame {
      return pool, Some(TooFewNames);
    }
    var counter: map<string, nat> := map[];
    var a: seq<Slot<F>> := [];
    for i := 0 to |ais|
      invariant |a| == i
      invariant forall j :: 0 <= j < i ==> ais[j] in reg
      invariant forall j :: 0 <= j < i ==> a[j] == SlotFor(reg, ais, j)
      invariant forall x :: Lookup(counter, x) == Count(ais[..i], x)
    {
      var name := ais[i];
      if name !in reg {
        return pool, Some(UnknownName(name));
      }
      CountSnoc(ais, i);
      var k := Lookup(counter, name) + 1;
      ghost var before := counter;
      counter := counter[name := k];
      assert forall x :: Lookup(counter, x) == Lookup(before, x) + (if name == x then 1 else 0);
      assert Slot(reg[name], PoolKey(name, k)) == SlotFor(reg, ais, i);
      a := a + [Slot(reg[name], PoolKey(name, k))];
    }
    assert ais[..|ais|] == ais;
    return a, None;
  }

  lemma CountSnoc(s: seq<string>, i: int)
    requires 0 <= i < |s|
    ensures forall x :: Count(s[..i + 1], x) == Count(s[..i], x) + (if s[i] == x then 1 else 0)
  {
    assert s[..i + 1][..i] == s[..i];
  }

  /** A Go map lookup of a counter: 0 for a missing key. */
  function Lookup(counter: map<string, nat>, x: string): nat
  {
    if x in counter then counter[x] else 0
  }

  /** A prefix holds no more copies than the whole sequence, and one fewer than a
      longer prefix ending on another copy. */
  lemma {:induction false} CountGrows(s: seq<string>, i: int, j: int)
    requires 0 <= i < j < |s| && s[i] == s[j]
    ensures Count(s[..i + 1], s[i]) < Count(s[..j + 1], s[j])
    decreases j - i
  {
    var x := s[i];
    assert s[..j + 1][..j] == s[..j];
    if i == j - 1 {
    } else {
      CountMonotone(s, i + 1, j, x);
    }
  }

  lemma {:induction false} CountMonotone(s: seq<string>, m: int, n: int, x: string)
    requires 0 <= m <= n <= |s|
    ensures Count(s[..m], x) <= Count(s[..n], x)
    decreases n - m
  {
    if m < n {
      assert s[..n][..n - 1] == s[..n - 1];
      CountMonotone(s, m, n - 1, x);
    }
  }

  /** Two keys built from dash-free counters are equal only for equal names and counters. */
  lemma PoolKeyInjective(a: string, k: nat, b: string, l: nat)
    requires PoolKey(a, k) == PoolKey(b, l)
    ensures a == b && k == l
  {
    var da, db := NatToString(k), NatToString(l);
    var s := PoolKey(a, k);
    assert s == ("AI-" + a + "-") + da;
    assert s == ("AI-" + b + "-") + db;
    if |da| == |db| {
      assert da == s[|s| - |da|..] == db;
      assert "AI-" + a + "-" == s[..|s| - |da|] == "AI-" + b + "-";
      assert a == ("AI-" + a + "-")[3..|a| + 3];
      NatToStringInjective(k, l);
    } else if |da| < |db| {
      DashBeforeSuffix("AI-" + a + "-", da, "AI-" + b + "-", db);
    } else {
      DashBeforeSuffix("AI-" + b + "-", db, "AI-" + a + "-", da);
    }
  }

  /** If p ends in '-' and p + d == q + e with e longer than d, then e holds that '-'. */
  lemma DashBeforeSuffix(p: string, d: string, q: string, e: string)
    requires p + d == q + e && |d| < |e| && |p| > 0 && p[|p| - 1] == '-'
    ensures e[|e| - |d| - 1] == '-'
  {
    var s := p + d;
    assert s[|p| - 1] == '-';
    assert s[|q| + |e| - |d| - 1] == e[|e| - |d| - 1];
  }

  /** All slots of an updated pool have different pseudonym keys. */
  lemma PoolKeysDistinct<F>(reg: Registry<F>, ais: seq<string>, pool: seq<Slot<F>>)
    requires PoolOf(reg, ais, pool)
    ensures forall i, j :: 0 <= i < j < |pool| ==> pool[i].key != pool[j].key
  {
    forall i, j | 0 <= i < j < |pool|
      ensures pool[i].key != pool[j].key
    {
      if pool[i].key == pool[j].key {
        assert pool[i] == SlotFor(reg, ais, i) && pool[j] == SlotFor(reg, ais, j);
        PoolKeyInjective(ais[i], Count(ais[..i + 1], ais[i]), ais[j], Count(ais[..j + 1], ais[j]));
        CountGrows(ais, i, j);
      }
    }
  }

  // ---------------------------------------------------------------------------
  // Names in alphabetical order

  /** Lexicographic order of strings by character, as sort.Strings compares them. */
  predicate Less(a: string, b: string)
    decreases |a|
  {
    if |a| == 0 then |b| > 0
    else if |b| == 0 then false
    else if a[0] != b[0] then a[0] < b[0]
    else Less(a[1..], b[1..])
  }

  lemma {:induction false} LessIrreflexive(a: string)
    ensures !Less(a, a)
    decreases |a|
  {
    if |a| > 0 {
      LessIrreflexive(a[1..]);
    }
  }

  lemma {:induction false} LessTransitive(a: string, b: string, c: string)
    requires Less(a, b) && Less(b, c)
    ensures Less(a, c)
    decreases |a|
  {
    if |a| > 0 && |b| > 0 && |c| > 0 && a[0] == b[0] && b[0] == c[0] {
      LessTransitive(a[1..], b[1..], c[1..]);
    }
  }

  lemma {:induction false} LessTotal(a: string, b: string)
    requires a != b
    ensures Less(a, b) || Less(b, a)
    decreases |a|
  {
    if |a| > 0 && |b| > 0 && a[0] == b[0] {
      assert a == [a[0]] + a[1..] && b == [b[0]] + b[1..];
      LessTotal(a[1..], b[1..]);
    }
  }

  predicate StrictlySorted(s: seq<string>)
  {
    forall i, j :: 0 <= i < j < |s| ==> Less(s[i], s[j])
  }

  /** Inserts a new name into a sorted list. */
  function Insert(s: seq<string>, x: string): (r: seq<string>)
    requires StrictlySorted(s) && x !in s
    ensures StrictlySorted(r)
    ensures multiset(r) == multiset(s) + multiset{x}
    decreases |s|
  {
    if |s| == 0 then [x]
    else if Less(x, s[0]) then
      forall j | 0 <= j < |s| ensures Less(x, s[j]) {
        if j > 0 {
          LessTransitive(x, s[0], s[j]);
        }
      }
      [x] + s
    else
      LessTotal(x, s[0]);
      var t := Insert(s[1..], x);
      assert multiset(s) == multiset{s[0]} + multiset(s[1..]) by {
        assert s == [s[0]] + s[1..];
      }
      forall j | 0 <= j < |t| ensures Less(s[0], t[j]) {
        assert t[j] in multiset(t);
      }
      [s[0]] + t
  }

  /** The registered names, sorted, each once. */
  method GetAINames<F>(reg: Registry<F>) returns (s: seq<string>)
    ensures StrictlySorted(s)
    ensures forall x :: x in s <==> x in reg
    ensures |s| == |reg.Keys|
  {
    s := [];
    var rest := reg.Keys;
    while rest != {}
      invariant rest <= reg.Keys
      invariant StrictlySorted(s)
      invariant forall x :: x in s <==> x in reg.Keys - rest
      invariant |s| + |rest| == |reg.Keys|
      decreases rest
    {
      if forall e :: e !in rest {
        assert false;
      }
      var k :| k in rest;
      ghost var s0 := s;
      s := Insert(s, k);
      assert forall x :: x in s <==> x in s0 || x == k by {
        forall x ensures x in s <==> x in multiset(s) {}
        forall x ensures x in s0 <==> x in multiset(s0) {}
      }
      rest := rest - {k};
    }
  }

  // ---------------------------------------------------------------------------
  // Drawing AIs for a game

  /** perm lists every index of a pool of size n exactly once (the shuffled index array). */
  predicate IsPermutation(perm: seq<int>, n: int)
  {
    && |perm| == n
    && (forall i :: 0 <= i < |perm| ==> 0 <= perm[i] < n)
    && (forall i, j :: 0 <= i < j < |perm| ==> perm[i] != perm[j])
  }

  /** The first num slots of the shuffled pool; asking for more slots than the pool
      holds, or for a negative number, panics. */
  function GetAI<F>(pool: seq<Slot<F>>, num: int, perm: seq<int>): (r: Result<seq<Slot<F>>, RegistryError>)
    requires IsPermutation(perm, |pool|)
    ensures r.Err? <==> num > |pool| || num < 0
    ensures r.Ok? ==> |r.value| == num
    ensures r.Ok? ==> exists idx: seq<int> ::
              && |idx| == num
              && (forall i :: 0 <= i < num ==> 0 <= idx[i] < |pool| && r.value[i] == pool[idx[i]])
              && (forall i, j :: 0 <= i < j < num ==> idx[i] != idx[j])
  {
    if num > |pool| || num < 0 then Err(NotEnoughAI)
    else
      var r := Gather(pool, perm[..num]);
      assert forall i :: 0 <= i < num ==> r[i] == pool[perm[..num][i]];
      Ok(r)
  }

  /** The keys of some slots. */
  function SlotKeys<F>(slots: seq<Slot<F>>): set<string>
  {
    set i | 0 <= i < |slots| :: slots[i].key
  }

  lemma SlotKeysCons<F>(slots: seq<Slot<F>>)
    requires |slots| > 0
    ensures SlotKeys(slots) == {slots[0].key} + SlotKeys(slots[1..])
  {
    forall k | k in SlotKeys(slots) ensures k in {slots[0].key} + SlotKeys(slots[1..]) {
      var i :| 0 <= i < |slots| && slots[i].key == k;
      if i > 0 {
        assert slots[1..][i - 1] == slots[i];
      }
    }
  }

  /** Calls the drawn slots in order, as the loop at the end of GetAI does: each call
      yields the slot's factory and the pseudonym of the slot's key, which
      GlobalPseudonym.Get looks up and, for a new key, draws and stores. The AI the
      factory builds is not modelled; draws[i] is the draw used if slot i's key is
      new. */
  function CallSlots<F>(slots: seq<Slot<F>>, dict: Pseudonym.Dict, draws: seq<Pseudonym.Draw>)
    : (r: (seq<(F, string)>, Pseudonym.Dict))
    requires |draws| == |slots| && forall i :: 0 <= i < |draws| ==> Pseudonym.ValidDraw(draws[i])
    ensures |r.0| == |slots|
    ensures r.1.Keys == dict.Keys + SlotKeys(slots)
    ensures forall k :: k in dict ==> r.1[k] == dict[k]
    decreases |slots|
  {
    if |slots| == 0 then ([], dict)
    else
      var (d1, name) := Pseudonym.Get(dict, slots[0].key, draws[0]);
      var (rest, d2) := CallSlots(slots[1..], d1, draws[1..]);
      SlotKeysCons(slots);
      ([(slots[0].factory, name)] + rest, d2)
  }

  /** Each call answers its slot's factory and the pseudonym the dictionary holds for
      the slot's key once all the calls are made. */
  lemma {:induction false} CallSlotsNames<F>(slots: seq<Slot<F>>, dict: Pseudonym.Dict, draws: seq<Pseudonym.Draw>)
    requires |draws| == |slots| && forall i :: 0 <= i < |draws| ==> Pseudonym.ValidDraw(draws[i])
    ensures var r := CallSlots(slots, dict, draws);
            forall i :: 0 <= i < |slots| ==> slots[i].key in r.1 && r.0[i] == (slots[i].factory, r.1[slots[i].key])
    decreases |slots|
  {
    if |slots| > 0 {
      var (d1, name) := Pseudonym.Get(dict, slots[0].key, draws[0]);
      CallSlotsNames(slots[1..], d1, draws[1..]);
      var (rest, d2) := CallSlots(slots[1..], d1, draws[1..]);
      var r := CallSlots(slots, dict, draws);
      assert r == ([(slots[0].factory, name)] + rest, d2);
      forall i | 0 <= i < |slots| ensures slots[i].key in r.1 && r.0[i] == (slots[i].factory, r.1[slots[i].key]) {
        if i > 0 {
          assert slots[1..][i - 1] == slots[i] && r.0[i] == rest[i - 1];
        }
      }
    }
  }

  /** GetAI with the selected slots called: the factories at the first num shuffled
      positions, each with the pseudonym of its key, and the pseudonym dictionary after
      the lookups. */
  function GetAINamed<F>(pool: seq<Slot<F>>, num: int, perm: seq<int>, dict: Pseudonym.Dict,
                         draws: seq<Pseudonym.Draw>)
    : (r: Result<(seq<(F, string)>, Pseudonym.Dict), RegistryError>)
    requires IsPermutation(perm, |pool|)
    requires |draws| == num || num < 0 || num > |pool|
    requires forall i :: 0 <= i < |draws| ==> Pseudonym.ValidDraw(draws[i])
    ensures r.Err? <==> num > |pool| || num < 0
    ensures r.Ok? ==> |r.value.0| == num
    ensures r.Ok? ==> r.value.1.Keys == dict.Keys + SlotKeys(Gather(pool, perm[..num]))
    ensures r.Ok? ==> forall k :: k in dict ==> r.value.1[k] == dict[k]
  {
    if num > |pool| || num < 0 then Err(NotEnoughAI)
    else Ok(CallSlots(Gather(pool, perm[..num]), dict, draws))
  }

  /** The i-th AI of GetAINamed is the factory at the i-th shuffled position, named by
      the pseudonym its key has in the resulting dictionary. */
  lemma GetAINamedPicks<F>(pool: seq<Slot<F>>, num: int, perm: seq<int>, dict: Pseudonym.Dict,
                           draws: seq<Pseudonym.Draw>)
    requires IsPermutation(perm, |pool|) && 0 <= num <= |pool| && |draws| == num
    requires forall i :: 0 <= i < |draws| ==> Pseudonym.ValidDraw(draws[i])
    ensures var r := GetAINamed(pool, num, perm, dict, draws).value;
            forall i :: 0 <= i < num ==>
              pool[perm[i]].key in r.1 && r.0[i] == (pool[perm[i]].factory, r.1[pool[perm[i]].key])
  {
    var slots := Gather(pool, perm[..num]);
    CallSlotsNames(slots, dict, draws);
    assert forall i :: 0 <= i < num ==> slots[i] == pool[perm[i]];
  }

  /** The slots at the given indices, in order. */
  function Gather<F>(pool: seq<Slot<F>>, idx: seq<int>): (r: seq<Slot<F>>)
    requires forall i :: 0 <= i < |idx| ==> 0 <= idx[i] < |pool|
    ensures |r| == |idx| && forall i :: 0 <= i < |idx| ==> r[i] == pool[idx[i]]
  {
    seq(|idx|, i requires 0 <= i < |idx| => pool[idx[i]])
  }

  lemma RemoveAt<F>(pool: seq<Slot<F>>, k: int)
    requires 0 <= k < |pool|
    ensures multiset(pool) == multiset(pool[..k] + pool[k + 1..]) + multiset{pool[k]}
  {
    assert pool == pool[..k] + [pool[k]] + pool[k + 1..];
  }

  /** Every slot of a draw comes from the pool, and no slot is drawn more often than it
      occurs in the pool. */
  lemma {:induction false} DrawIsSubMultiset<F>(pool: seq<Slot<F>>, idx: seq<int>)
    requires forall i :: 0 <= i < |idx| ==> 0 <= idx[i] < |pool|
    requires forall i, j :: 0 <= i < j < |idx| ==> idx[i] != idx[j]
    ensures multiset(Gather(pool, idx)) <= multiset(pool)
    decreases |idx|
  {
    if |idx| > 0 {
      var n := |idx| - 1;
      var k := idx[n];
      var pool' := pool[..k] + pool[k + 1..];
      var idx' := seq(n, i requires 0 <= i < n => if idx[i] > k then idx[i] - 1 else idx[i]);
      forall i, j | 0 <= i < j < n ensures idx'[i] != idx'[j] {
        assert idx[i] != idx[n] && idx[j] != idx[n];
      }
      DrawIsSubMultiset(pool', idx');
      assert Gather(pool, idx) == Gather(pool', idx') + [pool[k]] by {
        forall i | 0 <= i < n ensures Gather(pool, idx)[i] == Gather(pool', idx')[i] {
          assert idx[i] != idx[n];
        }
      }
      RemoveAt(pool, k);
    }
  }
}
