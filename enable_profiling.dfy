/**
 * `EnableProfilingPass`: while the static map `TaintedFuncs` is empty, reads
 * a list of (index, function name) pairs into it; skips modules under four source
 * directories, puts the `record_cov` probe in front of every listed function
 * that has a body, and writes the module's bitcode under a key derived from
 * its name.
 */
module EnableProfiling {
  import opened Wrappers
  import opened Strings
  import opened IR
  import opened IndexMaps

  /** Directory the instrumented module's bitcode is written into. */
  const SNAPSHOT_DIR: string := "/home/chenxiong/"

  /** Modules whose name starts with one of these are not instrumented. */
  const SKIPPED_PREFIXES: seq<string> := ["../../base", "../../testing", "../../buildtools", "../../chrome/test"]

  /** `module_name.startswith(...)` for one of the skipped prefixes.  The
      test is on characters, not on directories: `../../baseline/x.cc` is
      skipped as well, and every skipped name starts with `../../`. */
  predicate IsSkippedModule(name: string): (r: bool)
    ensures r <==> "../../base" <= name || "../../testing" <= name ||
                   "../../buildtools" <= name || "../../chrome/test" <= name
    ensures r ==> "../../" <= name
  {
    assert SKIPPED_PREFIXES[0] == "../../base" && SKIPPED_PREFIXES[1] == "../../testing";
    assert SKIPPED_PREFIXES[2] == "../../buildtools" && SKIPPED_PREFIXES[3] == "../../chrome/test";
    exists k | 0 <= k < |SKIPPED_PREFIXES| :: SKIPPED_PREFIXES[k] <= name
  }

  /** The prefix test also skips a sibling directory that only shares the
      prefix: `../../baseline` is left alone like `../../base`. */
  lemma SkipsSiblingDirectory()
    ensures IsSkippedModule("../../baseline/x.cc")
  {
    assert "../../baseline/x.cc"[..10] == "../../base";
  }

  /** A module under `../../chrome` outside `test` is instrumented. */
  lemma KeepsChromeBrowser()
    ensures !IsSkippedModule("../../chrome/browser/z.cc")
  {
    assert "../../chrome/browser/z.cc"[6] == 'c' && "../../chrome/browser/z.cc"[13] == 'b';
  }

  // ---------------------------------------------------------------------------
  // The index file: one `[+]idx name` line per function
  // ---------------------------------------------------------------------------

  /** A line `read_indexes` can handle: at least two space-separated tokens,
      an index token `stoi` converts, and a non-empty name token. */
  predicate WellFormedIndexLine(line: string)
  {
    var tokens := Fields(line, ' ');
    |tokens| >= 2 && IsIntToken(tokens[0]) && tokens[1] != []
  }

  predicate AllWellFormed(lines: seq<string>)
  {
    forall i :: 0 <= i < |lines| ==> WellFormedIndexLine(lines[i])
  }

  /** The index on a line: the first token with a leading `+` removed, then
      converted; the same value `stoi` gives the unstripped token. */
  function LineIndex(line: string): (idx: nat)
    requires WellFormedIndexLine(line)
    ensures idx == Stoi(Fields(line, ' ')[0])
  {
    var t := Fields(line, ' ')[0];
    if t[0] == '+' then StripPlus(t); Stoi(t[1..]) else Stoi(t)
  }

  /** The function name on a line: the second token, a trailing `\n` removed.
      It is the token itself or the token without its last character, and
      a token holding no `\n` is taken as it stands. */
  function LineName(line: string): (name: string)
    requires WellFormedIndexLine(line)
    ensures var t := Fields(line, ' ')[1];
      && name <= t && |t| - 1 <= |name|
      && ('\n' !in t ==> name == t)
  {
    var t := Fields(line, ' ')[1];
    if t[|t| - 1] == '\n' then t[..|t| - 1] else t
  }

  /** Lines that `getline` extracts hold no `\n`, so the name is the second
      token exactly: the newline removal never applies to them. */
  lemma LineNameOfFileLine(content: string, k: nat)
    requires k < |Fields(content, '\n')|
    requires WellFormedIndexLine(Fields(content, '\n')[k])
    ensures var line := Fields(content, '\n')[k];
      LineName(line) == Fields(line, ' ')[1]
  {
  }

  /** The entries of well-formed lines, in file order: name and index. */
  function Entries(lines: seq<string>): (r: seq<Entry<nat>>)
    requires AllWellFormed(lines)
    ensures |r| == |lines|
    ensures forall i :: 0 <= i < |lines| ==> r[i] == Entry(LineName(lines[i]), LineIndex(lines[i]))
  {
    if lines == [] then []
    else [Entry(LineName(lines[0]), LineIndex(lines[0]))] + Entries(lines[1..])
  }

  /** The map after `read_indexes`: unchanged when the file cannot be opened,
      otherwise every line stored into it in file order. */
  function Loaded(m: map<string, nat>, indexFile: Option<string>): (r: map<string, nat>)
    requires indexFile.Some? ==> AllWellFormed(Fields(indexFile.value, '\n'))
    ensures indexFile.None? ==> r == m
    ensures m.Keys <= r.Keys
    ensures indexFile.Some? && Fields(indexFile.value, '\n') != [] ==> r != map[]
  {
    if indexFile.None? then m
    else
      var es := Entries(Fields(indexFile.value, '\n'));
      StoredGrows(m, es);
      Stored(m, es)
  }

  /** Reading the first of the remaining lines stores its entry. */
  lemma ReadOneLine(m: map<string, nat>, lines: seq<string>)
    requires AllWellFormed(lines) && lines != []
    ensures AllWellFormed(lines[1..])
    ensures Stored(m, Entries(lines)) ==
      Stored(m[LineName(lines[0]) := LineIndex(lines[0])], Entries(lines[1..]))
  {
  }

  /** After reading lines, a function has an index exactly when it had one
      before or some line names it. */
  lemma LinesKeys(m: map<string, nat>, lines: seq<string>, name: string)
    requires AllWellFormed(lines)
    ensures name in Stored(m, Entries(lines)) <==>
      name in m || exists i :: 0 <= i < |lines| && LineName(lines[i]) == name
  {
    var es := Entries(lines);
    StoredKeys(m, es, name);
    if exists i :: 0 <= i < |es| && es[i].key == name {
      var i :| 0 <= i < |es| && es[i].key == name;
      assert LineName(lines[i]) == name;
    }
    if exists i :: 0 <= i < |lines| && LineName(lines[i]) == name {
      var i :| 0 <= i < |lines| && LineName(lines[i]) == name;
      assert es[i].key == name;
    }
  }

  /** A function listed on several lines gets the index of the last one. */
  lemma LinesLastWins(m: map<string, nat>, lines: seq<string>, i: nat)
    requires AllWellFormed(lines) && i < |lines|
    requires forall j :: i < j < |lines| ==> LineName(lines[j]) != LineName(lines[i])
    ensures LineName(lines[i]) in Stored(m, Entries(lines))
    ensures Stored(m, Entries(lines))[LineName(lines[i])] == LineIndex(lines[i])
  {
    var es := Entries(lines);
    assert forall j :: i < j < |es| ==> es[j].key != es[i].key;
    StoredLastWins(m, es, i);
  }

  /** A function no line names keeps the index it had before. */
  lemma LinesUntouched(m: map<string, nat>, lines: seq<string>, name: string)
    requires AllWellFormed(lines) && name in m
    requires forall i :: 0 <= i < |lines| ==> LineName(lines[i]) != name
    ensures name in Stored(m, Entries(lines)) && Stored(m, Entries(lines))[name] == m[name]
  {
    var es := Entries(lines);
    assert forall i :: 0 <= i < |es| ==> es[i].key != name;
    StoredUntouched(m, es, name);
  }

  /** The body of the `read_indexes` loop for one line: split it at spaces,
      convert the first token (a leading `+` removed), and take the second
      token as the name (a trailing `\n` removed). */
  method ParseIndexLine(line: string) returns (name: string, idx: nat)
    requires WellFormedIndexLine(line)
    ensures name == LineName(line) && idx == LineIndex(line)
  {
    var tokens := Split(line, ' ');
    if tokens[0][0] == '+' {
      StripPlus(tokens[0]);
      idx := Stoi(tokens[0][1..]);
    } else {
      idx := Stoi(tokens[0]);
    }
    var l := |tokens[1]|;
    if tokens[1][l - 1] == '\n' {
      name := tokens[1][..l - 1];
    } else {
      name := tokens[1];
    }
  }

  /** `instrumentFunction`: declarations, intrinsics and empty functions get
      no probe; any other function gets `record_cov` with its index. */
  method InstrumentFunction(f: Function, idx: nat) returns (probe: Option<nat>)
    ensures probe.Some? <==> Instrumentable(f)
    ensures probe.Some? ==> probe.value == idx
  {
    if f.isDeclaration || f.isIntrinsic || f.isEmpty {
      return None;
    }
    probe := Some(idx);
  }

  /** The static member `TaintedFuncs`: defined once per process, empty at
      first, and shared by every `EnableProfilingPass` object. */
  class Statics {
    var taintedFuncs: map<string, nat>

    /** The definition `EnableProfilingPass::TaintedFuncs = map<string, int>()`. */
    constructor ()
      ensures taintedFuncs == map[]
    {
      taintedFuncs := map[];
    }
  }

  /** The pass.  It holds no state of its own: `statics` is the process's one
      `TaintedFuncs`, which every pass object reads and fills. */
  class EnableProfilingPass {
    const statics: Statics

    /** The pass constructor only registers the pass; it leaves
        `TaintedFuncs` as it is. */
    constructor (statics: Statics)
      ensures this.statics == statics
    {
      this.statics := statics;
    }

    /** `read_indexes`: `indexFile` is the index file's content, or None when
        it cannot be opened, in which case nothing happens. */
    method ReadIndexes(indexFile: Option<string>)
      requires indexFile.Some? ==> AllWellFormed(Fields(indexFile.value, '\n'))
      modifies statics
      ensures statics.taintedFuncs == Loaded(old(statics.taintedFuncs), indexFile)
    {
      if indexFile.None? {
        return;
      }
      var content := indexFile.value;
      ghost var final := Stored(statics.taintedFuncs, Entries(Fields(content, '\n')));
      var pos := 0;
      assert content[0..] == content;
      while pos < |content|
        invariant pos <= |content|
        invariant AllWellFormed(Fields(content[pos..], '\n'))
        invariant Stored(statics.taintedFuncs, Entries(Fields(content[pos..], '\n'))) == final
        decreases |content| - pos
      {
        ghost var rest := Fields(content[pos..], '\n');
        var line;
        line, pos := GetLine(content, pos, '\n');
        assert rest[0] == line && rest[1..] == Fields(content[pos..], '\n');
        ReadOneLine(statics.taintedFuncs, rest);
        var name, idx := ParseIndexLine(line);
        statics.taintedFuncs := statics.taintedFuncs[name := idx];
      }
      assert content[pos..] == [];
    }

    /** `runOnModule`.  The index file is read whenever `TaintedFuncs` is
        still empty, and only then, so its content matters only in that
        case.  A module under a skipped prefix is left alone and the pass
        reports no change; otherwise every function listed in `TaintedFuncs`
        that has a body gets the `record_cov` probe with its listed index
        (`probes[i]` is the probe of the i-th function), and the module is
        written to `/home/chenxiong/` under its key. */
    method RunOnModule(m: Module, indexFile: Option<string>)
      returns (changed: bool, probes: seq<Option<nat>>, snapshot: Option<string>)
      requires |statics.taintedFuncs| == 0 && indexFile.Some? ==> AllWellFormed(Fields(indexFile.value, '\n'))
      modifies statics
      ensures statics.taintedFuncs ==
        if |old(statics.taintedFuncs)| == 0 then Loaded(old(statics.taintedFuncs), indexFile) else old(statics.taintedFuncs)
      ensures changed <==> !IsSkippedModule(m.name)
      ensures snapshot == if changed then Some(SNAPSHOT_DIR + PathKey(m.name)) else None
      ensures |probes| == |m.functions|
      ensures forall i :: 0 <= i < |m.functions| ==>
        probes[i] == if changed && m.functions[i].name in statics.taintedFuncs && Instrumentable(m.functions[i])
                     then Some(statics.taintedFuncs[m.functions[i].name]) else None
    {
      if |statics.taintedFuncs| == 0 {
        ReadIndexes(indexFile);
      }
      var taintedFuncs := statics.taintedFuncs;
      probes := seq(|m.functions|, _ => None);
      if IsSkippedModule(m.name) {
        return false, probes, None;
      }
      var i := 0;
      while i < |m.functions|
        invariant i <= |m.functions| && |probes| == |m.functions|
        invariant forall j :: 0 <= j < i ==>
          probes[j] == if m.functions[j].name in taintedFuncs && Instrumentable(m.functions[j])
                       then Some(taintedFuncs[m.functions[j].name]) else None
        invariant forall j :: i <= j < |m.functions| ==> probes[j] == None
        invariant statics.taintedFuncs == taintedFuncs
      {
        var f := m.functions[i];
        if f.name in taintedFuncs {
          var probe := InstrumentFunction(f, taintedFuncs[f.name]);
          probes := probes[i := probe];
        }
        i := i + 1;
      }
      var key := ModuleKey(m.name);
      return true, probes, Some(SNAPSHOT_DIR + key);
    }
  }

  /** Two pass objects in one process, as when a second translation unit is
      compiled with a fresh pass: they share `TaintedFuncs`, so the second
      reads its index file only if the first left the map empty (the file
      was missing or had no lines), and otherwise uses what the first read. */
  method SharedAcrossPasses(m1: Module, m2: Module, first: Option<string>, second: Option<string>)
    returns (after1: map<string, nat>, after2: map<string, nat>)
    requires first.Some? ==> AllWellFormed(Fields(first.value, '\n'))
    requires |Loaded(map[], first)| == 0 && second.Some? ==> AllWellFormed(Fields(second.value, '\n'))
    ensures after1 == Loaded(map[], first)
    ensures after2 == if |after1| == 0 then Loaded(map[], second) else after1
    ensures first.Some? && Fields(first.value, '\n') != [] ==> after2 == after1
  {
    var statics := new Statics();
    var pass1 := new EnableProfilingPass(statics);
    var _, _, _ := pass1.RunOnModule(m1, first);
    after1 := statics.taintedFuncs;
    var pass2 := new EnableProfilingPass(statics);
    var _, _, _ := pass2.RunOnModule(m2, second);
    after2 := statics.taintedFuncs;
  }
}
