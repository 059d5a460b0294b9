/**
 * `HunDunPass`: with a shared-memory size of 0 it only writes the module's
 * bitcode to `<out_dir>/<key>.bc`; otherwise it gives every function with a
 * body an AFL-style probe that stores 1 into `__afl_area_ptr[cur_loc]`, with
 * `cur_loc` drawn at compile time as `random() % shm_size`.
 */
module HunDun {
  import opened Wrappers
  import opened Strings
  import opened IR

  /** `uint32_t`. */
  type uint32 = x: nat | x < 0x1_0000_0000

  /** Where `saveIR` writes a module: `out_dir + "/" + key + ".bc"`. */
  function SnapshotPath(outDir: string, moduleName: string): (p: string)
    ensures |p| == |outDir| + |moduleName| + 4
    ensures outDir <= p && p[|p| - 3..] == ".bc"
  {
    outDir + "/" + PathKey(moduleName) + ".bc"
  }

  /** The snapshot lies directly inside `outDir`: the part after `outDir/`
      has no `/`, as long as the name, and ends in `.bc` with no other `.`. */
  lemma SnapshotPathShape(outDir: string, moduleName: string)
    ensures var p := SnapshotPath(outDir, moduleName);
      var file := p[|outDir| + 1..];
      && p[..|outDir| + 1] == outDir + "/"
      && |file| == |moduleName| + 3
      && file[|moduleName|..] == ".bc"
      && '/' !in file
      && (forall i :: 0 <= i < |moduleName| ==> file[i] != '.')
  {
  }

  /** Different modules whose names hold no `@` or `$` are written to
      different files. */
  lemma SnapshotPathDistinct(outDir: string, a: string, b: string)
    requires '@' !in a && '$' !in a && '@' !in b && '$' !in b
    requires a != b
    ensures SnapshotPath(outDir, a) != SnapshotPath(outDir, b)
  {
    if SnapshotPath(outDir, a) == SnapshotPath(outDir, b) {
      var pa, pb := SnapshotPath(outDir, a), SnapshotPath(outDir, b);
      assert |PathKey(a)| == |PathKey(b)|;
      assert PathKey(a) == pa[|outDir| + 1..|pa| - 3];
      assert PathKey(b) == pb[|outDir| + 1..|pb| - 3];
      PathKeyInjective(a, b);
    }
  }

  // ---------------------------------------------------------------------------
  // The probes at run time
  // ---------------------------------------------------------------------------

  /** The area after the probes with these slots ran, in order: each stores 1
      into its byte. */
  function Hits(area: seq<bv8>, slots: seq<nat>): (r: seq<bv8>)
    requires forall k :: 0 <= k < |slots| ==> slots[k] < |area|
    ensures |r| == |area|
    decreases |slots|
  {
    if slots == [] then area else Hits(area[slots[0] := 1], slots[1..])
  }

  /** After any run, a byte is 1 if some probe stored into it and keeps its
      old value otherwise: order and repetition do not matter. */
  lemma {:induction false} HitsBytes(area: seq<bv8>, slots: seq<nat>, j: nat)
    requires forall k :: 0 <= k < |slots| ==> slots[k] < |area|
    requires j < |area|
    ensures Hits(area, slots)[j] == if j in slots then 1 else area[j]
    decreases |slots|
  {
    if slots != [] {
      var rest := slots[1..];
      assert forall k :: 0 <= k < |rest| ==> rest[k] == slots[k + 1];
      HitsBytes(area[slots[0] := 1], rest, j);
      assert j in slots <==> j == slots[0] || j in rest;
    }
  }

  /** Running the same probes again changes nothing. */
  lemma HitsRepeat(area: seq<bv8>, slots: seq<nat>)
    requires forall k :: 0 <= k < |slots| ==> slots[k] < |area|
    ensures Hits(Hits(area, slots), slots) == Hits(area, slots)
  {
    var once := Hits(area, slots);
    forall j | 0 <= j < |area| ensures Hits(once, slots)[j] == once[j] {
      HitsBytes(area, slots, j);
      HitsBytes(once, slots, j);
    }
  }

  /** The shared map `__afl_area_ptr` points to. */
  class AflArea {
    const bytes: array<bv8>

    constructor (size: nat)
      ensures fresh(bytes) && bytes.Length == size
      ensures forall j :: 0 <= j < size ==> bytes[j] == 0
    {
      bytes := new bv8[size](_ => 0);
    }

    /** The load of `__afl_area_ptr`, the GEP to `cur_loc`, and the store of
        1 that a probe runs on entry. */
    method Hit(slot: nat)
      requires slot < bytes.Length
      modifies bytes
      ensures bytes[..] == old(bytes[..])[slot := 1]
    {
      bytes[slot] := 1;
    }

    /** Running the probes with these slots, one after another. */
    method HitAll(slots: seq<nat>)
      requires forall k :: 0 <= k < |slots| ==> slots[k] < bytes.Length
      modifies bytes
      ensures bytes[..] == Hits(old(bytes[..]), slots)
    {
      ghost var start := bytes[..];
      for i := 0 to |slots|
        invariant Hits(bytes[..], slots[i..]) == Hits(start, slots)
      {
        assert slots[i..][1..] == slots[i + 1..];
        Hit(slots[i]);
      }
      assert slots[|slots|..] == [];
    }
  }

  // ---------------------------------------------------------------------------
  // The pass
  // ---------------------------------------------------------------------------

  class HunDunPass {
    const shmSize: uint32
    const outDir: string

    /** `HunDunPass(hundun_shm_size, hundun_out_dir)`. */
    constructor (hundunShmSize: uint32, hundunOutDir: string)
      ensures shmSize == hundunShmSize && outDir == hundunOutDir
    {
      shmSize := hundunShmSize;
      outDir := hundunOutDir;
    }

    /** `saveIR`: the path the module's bitcode is written to. */
    method SaveIR(m: Module) returns (path: string)
      ensures path == SnapshotPath(outDir, m.name)
    {
      var modulePath := ModuleKey(m.name);
      path := outDir + "/" + modulePath + ".bc";
    }

    /** `runOnModule`.  `draws[i]` is what `random()` returns when the i-th
        function is reached.  With `shm_size == 0` the module is only saved
        and the pass reports no change; otherwise nothing is saved, every
        function with a body gets a probe whose slot is its draw modulo
        `shm_size` (so it lies inside a `shm_size`-byte area), and the pass
        reports a change. */
    method RunOnModule(m: Module, draws: seq<nat>)
      returns (changed: bool, saved: Option<string>, probes: seq<Option<nat>>)
      requires |draws| == |m.functions|
      ensures changed <==> shmSize != 0
      ensures saved == if shmSize == 0 then Some(SnapshotPath(outDir, m.name)) else None
      ensures |probes| == |m.functions|
      ensures forall i :: 0 <= i < |m.functions| ==>
        probes[i] == if shmSize != 0 && Instrumentable(m.functions[i]) then Some(draws[i] % shmSize) else None
      ensures forall i :: 0 <= i < |m.functions| && probes[i].Some? ==> probes[i].value < shmSize
    {
      probes := [];
      if shmSize == 0 {
        var path := SaveIR(m);
        probes := seq(|m.functions|, _ => None);
        return false, Some(path), probes;
      }
      for i := 0 to |m.functions|
        invariant |probes| == i
        invariant forall j :: 0 <= j < i ==>
          probes[j] == if Instrumentable(m.functions[j]) then Some(draws[j] % shmSize) else None
      {
        var f := m.functions[i];
        if f.isDeclaration || f.isIntrinsic || f.isEmpty {
          probes := probes + [None];
        } else {
          var curLoc := draws[i] % shmSize;
          probes := probes + [Some(curLoc)];
        }
      }
      return true, None, probes;
    }
  }
}
