/**
 * What the blocks that `EnableProfilingPass::record_cov` puts in front of a
 * function's entry block do when the instrumented program runs.  On entry,
 * if the function's private flag `is_<name>_recorded` is still 0, the flag
 * is set to 1; if the global pointer `cov_sh_mem` is still null, the shared
 * segment is obtained with `shmget` and attached with `shmat`; and the bit
 * of the function's index is or-ed into the segment, word `id / 32`, bit
 * `id % 32`.  Control then continues at the original entry block.
 *
 * The shared segment is a sequence of 32-bit words; obtaining and attaching
 * it is an abstract step that is only counted.
 */
module RecordCov {

  /** Size in bytes that `shmget` asks for, and the words it holds. */
  const SEGMENT_BYTES: nat := 458168
  const SEGMENT_WORDS: nat := SEGMENT_BYTES / 4

  // ---------------------------------------------------------------------------
  // The bitmap update, as arithmetic on the function's index
  // ---------------------------------------------------------------------------

  /** `udiv id, 32`: the word holding the function's bit, the one whose 32
      bits cover indices `32 * w` to `32 * w + 31`. */
  function WordIndex(id: nat): nat
  {
    id / 32
  }

  /** `urem id, 32`: the bit inside that word. */
  function BitIndex(id: nat): (b: nat)
    ensures b < 32
  {
    id % 32
  }

  /** `shl 1, (id % 32)`. */
  function Mask(id: nat): bv32
  {
    (1 as bv32) << BitIndex(id)
  }

  /** The word of `id` lies inside the bitmap. */
  predicate Covers(bitmap: seq<bv32>, id: nat)
  {
    WordIndex(id) < |bitmap|
  }

  /** The bit of `id` is set in the bitmap. */
  predicate IsSet(bitmap: seq<bv32>, id: nat)
    requires Covers(bitmap, id)
  {
    bitmap[WordIndex(id)] & Mask(id) != 0
  }

  /** The load / `or` / store of the record block. */
  function SetBit(bitmap: seq<bv32>, id: nat): (r: seq<bv32>)
    requires Covers(bitmap, id)
    ensures |r| == |bitmap|
    ensures forall w :: 0 <= w < |bitmap| && w != WordIndex(id) ==> r[w] == bitmap[w]
  {
    bitmap[WordIndex(id) := bitmap[WordIndex(id)] | Mask(id)]
  }

  /** A mask has exactly one bit set: it is a non-zero power of two. */
  lemma MaskSingleBit(id: nat)
    ensures Mask(id) != 0 && Mask(id) & (Mask(id) - 1) == 0
  {
  }

  /** Two masks share a bit exactly when the bit indices agree. */
  lemma MaskOverlap(a: nat, b: nat)
    ensures Mask(a) & Mask(b) != 0 <==> BitIndex(a) == BitIndex(b)
  {
  }

  /** The word's bits cover the indices `32 * w` to `32 * w + 31`, and the
      bit index is the position among them. */
  lemma IndexSplit(id: nat)
    ensures id == 32 * WordIndex(id) + BitIndex(id)
    ensures 32 * WordIndex(id) <= id < 32 * WordIndex(id) + 32
  {
  }

  /** Word and bit together identify the index. */
  lemma SlotDeterminesIndex(a: nat, b: nat)
    requires WordIndex(a) == WordIndex(b) && BitIndex(a) == BitIndex(b)
    ensures a == b
  {
  }

  /** The record block sets exactly the bit of `id`: every other bit of every
      word reads as before. */
  lemma SetBitExactly(bitmap: seq<bv32>, id: nat, other: nat)
    requires Covers(bitmap, id) && Covers(bitmap, other)
    ensures IsSet(SetBit(bitmap, id), other) <==> other == id || IsSet(bitmap, other)
  {
    var r := SetBit(bitmap, id);
    if WordIndex(other) == WordIndex(id) {
      var w := bitmap[WordIndex(id)];
      assert r[WordIndex(other)] == w | Mask(id);
      assert (w | Mask(id)) & Mask(other) == (w & Mask(other)) | (Mask(id) & Mask(other));
      MaskOverlap(id, other);
      if BitIndex(other) == BitIndex(id) {
        SlotDeterminesIndex(id, other);
      } else {
        assert other != id;
      }
    }
  }

  /** Setting a bit that is already set changes nothing. */
  lemma SetBitIdempotent(bitmap: seq<bv32>, id: nat)
    requires Covers(bitmap, id)
    ensures SetBit(SetBit(bitmap, id), id) == SetBit(bitmap, id)
  {
  }

  // ---------------------------------------------------------------------------
  // The runtime state the emitted blocks read and write
  // ---------------------------------------------------------------------------

  /** `recorded`: the functions whose `is_<name>_recorded` flag holds 1;
      `attached`: `cov_sh_mem` is not null; `attaches`: how many times the
      segment was attached; `bitmap`: the shared segment. */
  datatype Runtime = Runtime(recorded: set<string>, attached: bool, attaches: nat, bitmap: seq<bv32>)

  /** One entry into an instrumented function `fn` with index `id`. */
  function Execute(s: Runtime, fn: string, id: nat): (r: Runtime)
    requires Covers(s.bitmap, id)
    ensures |r.bitmap| == |s.bitmap|
  {
    if fn in s.recorded then s
    else Runtime(s.recorded + {fn}, true,
                 if s.attached then s.attaches else s.attaches + 1,
                 SetBit(s.bitmap, id))
  }

  /** A later entry into an already recorded function goes straight to the
      original entry block: recording happens at most once per function. */
  lemma ExecuteOnce(s: Runtime, fn: string, id: nat, id': nat)
    requires Covers(s.bitmap, id) && Covers(s.bitmap, id')
    ensures Execute(Execute(s, fn, id), fn, id') == Execute(s, fn, id)
  {
  }

  /** One entry into an instrumented function. */
  datatype Call = Call(fn: string, id: nat)

  predicate AllCovered(bitmap: seq<bv32>, calls: seq<Call>)
  {
    forall i :: 0 <= i < |calls| ==> Covers(bitmap, calls[i].id)
  }

  /** The state after a sequence of entries into instrumented functions. */
  function Run(s: Runtime, calls: seq<Call>): (r: Runtime)
    requires AllCovered(s.bitmap, calls)
    ensures |r.bitmap| == |s.bitmap|
    decreases |calls|
  {
    if calls == [] then s
    else Run(Execute(s, calls[0].fn, calls[0].id), calls[1..])
  }

  /** The functions entered at least once. */
  function Entered(calls: seq<Call>): set<string>
  {
    set i | 0 <= i < |calls| :: calls[i].fn
  }

  /** Entry `i` is the first entry into a function not yet recorded. */
  predicate FirstRecord(recorded: set<string>, calls: seq<Call>, i: nat)
    requires i < |calls|
  {
    calls[i].fn !in recorded &&
    forall j :: 0 <= j < i ==> calls[j].fn != calls[i].fn
  }

  /** After any sequence of entries: the recorded flags are those set before
      plus the functions entered; the segment was attached at most once, and
      only if it was not attached and some unrecorded function was entered. */
  lemma {:induction false} RunFlags(s: Runtime, calls: seq<Call>)
    requires AllCovered(s.bitmap, calls)
    ensures Run(s, calls).recorded == s.recorded + Entered(calls)
    ensures var entered := exists i :: 0 <= i < |calls| && calls[i].fn !in s.recorded;
      && Run(s, calls).attached == (s.attached || entered)
      && Run(s, calls).attaches == s.attaches + (if !s.attached && entered then 1 else 0)
    decreases |calls|
  {
    if calls != [] {
      var s' := Execute(s, calls[0].fn, calls[0].id);
      RunFlags(s', calls[1..]);
      var rest := calls[1..];
      assert Entered(calls) == {calls[0].fn} + Entered(rest) by {
        forall f | f in Entered(calls)
          ensures f in {calls[0].fn} + Entered(rest)
        {
          var i :| 0 <= i < |calls| && calls[i].fn == f;
          if i > 0 { assert rest[i - 1].fn == f; }
        }
      }
      if exists i :: 0 <= i < |calls| && calls[i].fn !in s.recorded {
        var i :| 0 <= i < |calls| && calls[i].fn !in s.recorded;
        if i > 0 && calls[0].fn in s.recorded {
          assert rest[i - 1].fn !in s'.recorded;
        }
      } else {
        assert calls[0].fn in s.recorded;
        forall i | 0 <= i < |rest| ensures rest[i].fn in s'.recorded {
          assert calls[i + 1].fn in s.recorded;
        }
      }
    }
  }

  /** After any sequence of entries, a bit is set exactly when it was set
      before or it belongs to the first entry into some unrecorded function;
      later entries into the same function never touch the bitmap again. */
  lemma {:induction false} RunBitmap(s: Runtime, calls: seq<Call>, x: nat)
    requires AllCovered(s.bitmap, calls) && Covers(s.bitmap, x)
    ensures IsSet(Run(s, calls).bitmap, x) <==>
      IsSet(s.bitmap, x) || exists i :: 0 <= i < |calls| && FirstRecord(s.recorded, calls, i) && calls[i].id == x
    decreases |calls|
  {
    if calls != [] {
      var c := calls[0];
      var s' := Execute(s, c.fn, c.id);
      var rest := calls[1..];
      RunBitmap(s', rest, x);
      if c.fn !in s.recorded {
        SetBitExactly(s.bitmap, c.id, x);
      }
      // A first record in `rest` under s' is a first record in `calls` under s.
      forall i | 0 <= i < |rest|
        ensures FirstRecord(s'.recorded, rest, i) <==> FirstRecord(s.recorded, calls, i + 1)
      {
        if FirstRecord(s.recorded, calls, i + 1) {
          forall j | 0 <= j < i ensures rest[j].fn != rest[i].fn {
            assert calls[j + 1].fn != calls[i + 1].fn;
          }
        }
        if FirstRecord(s'.recorded, rest, i) {
          forall j | 0 <= j < i + 1 ensures calls[j].fn != calls[i + 1].fn {
            if j > 0 { assert rest[j - 1].fn != rest[i].fn; }
          }
        }
      }
      if exists i :: 0 <= i < |calls| && FirstRecord(s.recorded, calls, i) && calls[i].id == x {
        var i :| 0 <= i < |calls| && FirstRecord(s.recorded, calls, i) && calls[i].id == x;
        if i > 0 {
          assert FirstRecord(s'.recorded, rest, i - 1);
        }
      }
      if exists i :: 0 <= i < |rest| && FirstRecord(s'.recorded, rest, i) && rest[i].id == x {
        var i :| 0 <= i < |rest| && FirstRecord(s'.recorded, rest, i) && rest[i].id == x;
        assert FirstRecord(s.recorded, calls, i + 1) && calls[i + 1].id == x;
      }
      if c.fn !in s.recorded {
        assert FirstRecord(s.recorded, calls, 0);
      }
    }
  }

  /** The instrumented program's globals: the per-function flags, the cached
      segment pointer, and the shared segment itself. */
  class CoverageRuntime {
    var recorded: set<string>
    var covShMem: bool
    var attaches: nat
    var bitmap: seq<bv32>

    function State(): Runtime
      reads this
    {
      Runtime(recorded, covShMem, attaches, bitmap)
    }

    /** Program start: every flag is 0, `cov_sh_mem` is null, and the segment
        holds whatever earlier runs left in it. */
    constructor (segment: seq<bv32>)
      requires |segment| == SEGMENT_WORDS
      ensures State() == Runtime({}, false, 0, segment)
    {
      recorded, covShMem, attaches, bitmap := {}, false, 0, segment;
    }

    /** The blocks `check_record`, `check_shm`, `get_shm` and `record`, run
        on entry to `fn` whose index is `id`. */
    method RecordCov(fn: string, id: nat)
      requires Covers(bitmap, id)
      modifies this
      ensures State() == Execute(old(State()), fn, id)
    {
      if fn !in recorded {
        recorded := recorded + {fn};
        if !covShMem {
          covShMem := true;
          attaches := attaches + 1;
        }
        var word := id / 32;
        var mask := (1 as bv32) << (id % 32);
        bitmap := bitmap[word := bitmap[word] | mask];
      }
    }
  }
}
