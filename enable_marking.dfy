/**
 * `EnableMarkingPass`: reads, once, a file whose lines list a source file
 * followed by (index, function name) pairs into the static two-level map
 * `FunctionIndexes`, and gives every indexed function of a module that has
 * a body a guard that sets the global `is_marked_<id>` the first time the function is
 * entered.
 */
module EnableMarking {
  import opened Wrappers
  import opened Strings
  import opened IR
  import opened IndexMaps

  // ---------------------------------------------------------------------------
  // The index file: one `file idx1 name1 idx2 name2 ...` line per source file
  // ---------------------------------------------------------------------------

  /** `(tokens.size() - 1) / 2`: the complete pairs after the file name. */
  function PairCount(tokens: seq<string>): (n: nat)
    requires tokens != []
    ensures 2 * n + 1 <= |tokens| <= 2 * n + 2
  {
    (|tokens| - 1) / 2
  }

  /** `tokens[i*2+1]`, the index of the i-th pair. */
  function IndexToken(tokens: seq<string>, i: nat): string
    requires 2 * i + 1 < |tokens|
  {
    tokens[2 * i + 1]
  }

  /** `tokens[i*2+2]`, the function name of the i-th pair. */
  function NameToken(tokens: seq<string>, i: nat): string
    requires 2 * i + 2 < |tokens|
  {
    tokens[2 * i + 2]
  }

  /** The first `n` pairs have index tokens `stoi` converts. */
  predicate PairsConvert(tokens: seq<string>, n: nat)
    requires tokens != [] && n <= PairCount(tokens)
  {
    forall i :: 0 <= i < n ==> IsIntToken(IndexToken(tokens, i))
  }

  /** Tokens `read_indexes` can handle: there is a first token (an empty line
      has none, and `tokens[0]` would read past the vector), and the index
      token of every complete pair converts. */
  predicate WellFormedTokens(tokens: seq<string>)
  {
    tokens != [] && PairsConvert(tokens, PairCount(tokens))
  }

  predicate WellFormedMarkingLine(line: string)
  {
    WellFormedTokens(Fields(line, ' '))
  }

  predicate AllWellFormed(lines: seq<string>)
  {
    forall i :: 0 <= i < |lines| ==> WellFormedMarkingLine(lines[i])
  }

  /** The first `n` pairs as entries of the inner map, in line order. */
  function PairEntries(tokens: seq<string>, n: nat): (r: seq<Entry<nat>>)
    requires tokens != [] && n <= PairCount(tokens) && PairsConvert(tokens, n)
    ensures |r| == n
  {
    if n == 0 then []
    else
      assert PairsConvert(tokens, n - 1);
      PairEntries(tokens, n - 1) + [Entry(NameToken(tokens, n - 1), Stoi(IndexToken(tokens, n - 1)))]
  }

  /** The i-th entry is the i-th pair: name token and converted index token. */
  lemma {:induction false} PairEntryAt(tokens: seq<string>, n: nat, i: nat)
    requires tokens != [] && n <= PairCount(tokens) && PairsConvert(tokens, n) && i < n
    ensures IsIntToken(IndexToken(tokens, i))
    ensures PairEntries(tokens, n)[i] == Entry(NameToken(tokens, i), Stoi(IndexToken(tokens, i)))
  {
    assert PairsConvert(tokens, n - 1);
    if i < n - 1 {
      PairEntryAt(tokens, n - 1, i);
    }
  }

  /** The inner map one line produces: its pairs stored, in order, into a
      fresh empty map. */
  function PairsMap(tokens: seq<string>): (r: map<string, nat>)
    requires WellFormedTokens(tokens)
    ensures |r| <= PairCount(tokens)
  {
    var es := PairEntries(tokens, PairCount(tokens));
    StoredSize(map[], es);
    Stored(map[], es)
  }

  /** A function has an index in a line's map exactly when some pair of the
      line names it. */
  lemma PairsMapKeys(tokens: seq<string>, name: string)
    requires WellFormedTokens(tokens)
    ensures name in PairsMap(tokens) <==>
      exists i :: 0 <= i < PairCount(tokens) && NameToken(tokens, i) == name
  {
    var es := PairEntries(tokens, PairCount(tokens));
    StoredKeys(map[], es, name);
    if exists i :: 0 <= i < |es| && es[i].key == name {
      var i :| 0 <= i < |es| && es[i].key == name;
      PairEntryAt(tokens, PairCount(tokens), i);
    }
    if exists i :: 0 <= i < PairCount(tokens) && NameToken(tokens, i) == name {
      var i :| 0 <= i < PairCount(tokens) && NameToken(tokens, i) == name;
      PairEntryAt(tokens, PairCount(tokens), i);
    }
  }

  /** A function named by several pairs of a line gets the index of the last. */
  lemma PairsMapLastWins(tokens: seq<string>, i: nat)
    requires WellFormedTokens(tokens) && i < PairCount(tokens)
    requires forall j :: i < j < PairCount(tokens) ==> NameToken(tokens, j) != NameToken(tokens, i)
    ensures NameToken(tokens, i) in PairsMap(tokens)
    ensures PairsMap(tokens)[NameToken(tokens, i)] == Stoi(IndexToken(tokens, i))
  {
    var es := PairEntries(tokens, PairCount(tokens));
    PairEntryAt(tokens, PairCount(tokens), i);
    forall j | i < j < |es| ensures es[j].key != es[i].key {
      PairEntryAt(tokens, PairCount(tokens), j);
    }
    StoredLastWins(map[], es, i);
  }

  /** An index token without a name after it is ignored: with an odd token
      count, one more token does not change the line's map. */
  lemma {:induction false} TrailingTokenIgnored(tokens: seq<string>, x: string)
    requires WellFormedTokens(tokens) && |tokens| % 2 == 1
    ensures WellFormedTokens(tokens + [x])
    ensures PairsMap(tokens + [x]) == PairsMap(tokens)
  {
    var t := tokens + [x];
    var n := PairCount(tokens);
    assert PairCount(t) == n;
    forall i | 0 <= i < n
      ensures IndexToken(t, i) == IndexToken(tokens, i) && NameToken(t, i) == NameToken(tokens, i)
    {
    }
    forall i | 0 <= i < n ensures PairEntries(t, n)[i] == PairEntries(tokens, n)[i] {
      PairEntryAt(t, n, i);
      PairEntryAt(tokens, n, i);
    }
    assert PairEntries(t, n) == PairEntries(tokens, n);
  }

  /** What a line stores into `FunctionIndexes`: its first token, and the map
      of its pairs. */
  function FileEntries(lines: seq<string>): (r: seq<Entry<map<string, nat>>>)
    requires AllWellFormed(lines)
    ensures |r| == |lines|
    ensures forall i :: 0 <= i < |lines| ==>
      r[i] == Entry(Fields(lines[i], ' ')[0], PairsMap(Fields(lines[i], ' ')))
  {
    if lines == [] then []
    else [Entry(Fields(lines[0], ' ')[0], PairsMap(Fields(lines[0], ' ')))] + FileEntries(lines[1..])
  }

  /** The map after `read_indexes`: unchanged when the file cannot be opened,
      otherwise every line stored into it in file order. */
  function Loaded(m: map<string, map<string, nat>>, indexFile: Option<string>): (r: map<string, map<string, nat>>)
    requires indexFile.Some? ==> AllWellFormed(Fields(indexFile.value, '\n'))
    ensures indexFile.None? ==> r == m
    ensures m.Keys <= r.Keys
    ensures indexFile.Some? && Fields(indexFile.value, '\n') != [] ==> r != map[]
  {
    if indexFile.None? then m
    else
      var es := FileEntries(Fields(indexFile.value, '\n'));
      StoredGrows(m, es);
      Stored(m, es)
  }

  /** Reading the first of the remaining lines stores its entry. */
  lemma ReadOneLine(m: map<string, map<string, nat>>, lines: seq<string>)
    requires AllWellFormed(lines) && lines != []
    ensures AllWellFormed(lines[1..])
    ensures Stored(m, FileEntries(lines)) ==
      Stored(m[Fields(lines[0], ' ')[0] := PairsMap(Fields(lines[0], ' '))], FileEntries(lines[1..]))
  {
  }

  /** After reading lines, a source file has a map exactly when it had one
      before or some line starts with it. */
  lemma LinesKeys(m: map<string, map<string, nat>>, lines: seq<string>, file: string)
    requires AllWellFormed(lines)
    ensures file in Stored(m, FileEntries(lines)) <==>
      file in m || exists i :: 0 <= i < |lines| && Fields(lines[i], ' ')[0] == file
  {
    var es := FileEntries(lines);
    StoredKeys(m, es, file);
    if exists i :: 0 <= i < |es| && es[i].key == file {
      var i :| 0 <= i < |es| && es[i].key == file;
      assert Fields(lines[i], ' ')[0] == file;
    }
    if exists i :: 0 <= i < |lines| && Fields(lines[i], ' ')[0] == file {
      var i :| 0 <= i < |lines| && Fields(lines[i], ' ')[0] == file;
      assert es[i].key == file;
    }
  }

  /** A later line for a source file replaces its map wholesale: the file's
      map is that of its last line, and pairs on earlier lines are gone. */
  lemma LinesLastWins(m: map<string, map<string, nat>>, lines: seq<string>, i: nat)
    requires AllWellFormed(lines) && i < |lines|
    requires forall j :: i < j < |lines| ==> Fields(lines[j], ' ')[0] != Fields(lines[i], ' ')[0]
    ensures Fields(lines[i], ' ')[0] in Stored(m, FileEntries(lines))
    ensures Stored(m, FileEntries(lines))[Fields(lines[i], ' ')[0]] == PairsMap(Fields(lines[i], ' '))
  {
    var es := FileEntries(lines);
    assert forall j :: i < j < |es| ==> es[j].key != es[i].key;
    StoredLastWins(m, es, i);
  }

  /** A source file no line starts with keeps its map. */
  lemma LinesUntouched(m: map<string, map<string, nat>>, lines: seq<string>, file: string)
    requires AllWellFormed(lines) && file in m
    requires forall i :: 0 <= i < |lines| ==> Fields(lines[i], ' ')[0] != file
    ensures file in Stored(m, FileEntries(lines)) && Stored(m, FileEntries(lines))[file] == m[file]
  {
    var es := FileEntries(lines);
    assert forall i :: 0 <= i < |es| ==> es[i].key != file;
    StoredUntouched(m, es, file);
  }

  // ---------------------------------------------------------------------------
  // What the pass does to each function
  // ---------------------------------------------------------------------------

  /** The fate of one function of the module: skipped as a declaration,
      intrinsic or empty function; reported with "Cannot find index for";
      or given the marking guard with this index. */
  datatype Marking = Skipped | Unindexed | Marked(id: nat)

  /** The static member `FunctionIndexes`: defined once per process, empty
      at first, and shared by every `EnableMarkingPass` object. */
  class Statics {
    var functionIndexes: map<string, map<string, nat>>

    /** The definition `EnableMarkingPass::FunctionIndexes = map<...>()`. */
    constructor ()
      ensures functionIndexes == map[]
    {
      functionIndexes := map[];
    }
  }

  /** The pass.  It holds no state of its own: `statics` is the process's one
      `FunctionIndexes`, which every pass object reads and fills. */
  class EnableMarkingPass {
    const statics: Statics

    /** The pass constructor only registers the pass; it leaves
        `FunctionIndexes` as it is. */
    constructor (statics: Statics)
      ensures this.statics == statics
    {
      this.statics := statics;
    }

    /** One iteration of the `read_indexes` loop: the line's first token gets
        a fresh empty map, and the line's pairs are stored into it in order. */
    method ReadLine(line: string)
      requires WellFormedMarkingLine(line)
      modifies statics
      ensures statics.functionIndexes ==
        old(statics.functionIndexes)[Fields(line, ' ')[0] := PairsMap(Fields(line, ' '))]
    {
      var tokens := Split(line, ' ');
      StorePairs(tokens[0], tokens);
    }

    /** The body of the `read_indexes` loop after the split: `fileName` gets a
        fresh empty map, and the inner `for` loop stores each pair into it in
        turn.  The inner map is built in `inner` and written back after the
        loop; nothing reads `FunctionIndexes` in between. */
    method StorePairs(fileName: string, tokens: seq<string>)
      requires WellFormedTokens(tokens)
      modifies statics
      ensures statics.functionIndexes == old(statics.functionIndexes)[fileName := PairsMap(tokens)]
    {
      var inner: map<string, nat> := map[];
      var functionNum := PairCount(tokens);
      ghost var pairs := PairEntries(tokens, functionNum);
      for i := 0 to functionNum
        invariant inner == Stored(map[], pairs[..i])
        invariant statics.functionIndexes == old(statics.functionIndexes)
      {
        PairEntryAt(tokens, functionNum, i);
        assert IndexToken(tokens, i) == tokens[i * 2 + 1] && NameToken(tokens, i) == tokens[i * 2 + 2];
        var idx := Stoi(tokens[i * 2 + 1]);
        var funcName := tokens[i * 2 + 2];
        assert pairs[..i + 1] == pairs[..i] + [pairs[i]];
        StoredSnoc(map[], pairs[..i], pairs[i]);
        inner := inner[funcName := idx];
      }
      assert pairs[..functionNum] == pairs;
      assert inner == PairsMap(tokens);
      statics.functionIndexes := statics.functionIndexes[fileName := inner];
    }

    /** `read_indexes`: `indexFile` is the index file's content, or None when
        it cannot be opened, in which case nothing happens. */
    method ReadIndexes(indexFile: Option<string>)
      requires indexFile.Some? ==> AllWellFormed(Fields(indexFile.value, '\n'))
      modifies statics
      ensures statics.functionIndexes == Loaded(old(statics.functionIndexes), indexFile)
    {
      if indexFile.None? {
        return;
      }
      var content := indexFile.value;
      ghost var final := Stored(statics.functionIndexes, FileEntries(Fields(content, '\n')));
      var pos := 0;
      assert content[0..] == content;
      while pos < |content|
        invariant pos <= |content|
        invariant AllWellFormed(Fields(content[pos..], '\n'))
        invariant Stored(statics.functionIndexes, FileEntries(Fields(content[pos..], '\n'))) == final
        decreases |content| - pos
      {
        ghost var rest := Fields(content[pos..], '\n');
        var line;
        line, pos := GetLine(content, pos, '\n');
        assert rest[0] == line && rest[1..] == Fields(content[pos..], '\n');
        ReadOneLine(statics.functionIndexes, rest);
        ReadLine(line);
      }
      assert content[pos..] == [];
    }

    /** `runOnModule`.  The index file is read only while `FunctionIndexes`
        is empty, so its content matters only then; and since the run leaves
        an entry for the module, that is on the first module only.  `missing` is the "Cannot find indexes for" report; looking
        the module up with `operator[]` then inserts an empty map for it.
        Every function with a body that the module's map lists is marked with
        its index (`marks[i]` is the fate of the i-th function), and the pass
        always reports a change. */
    method RunOnModule(m: Module, indexFile: Option<string>)
      returns (changed: bool, missing: bool, marks: seq<Marking>)
      requires |statics.functionIndexes| == 0 && indexFile.Some? ==> AllWellFormed(Fields(indexFile.value, '\n'))
      modifies statics
      ensures var loaded :=
          if |old(statics.functionIndexes)| == 0 then Loaded(old(statics.functionIndexes), indexFile) else old(statics.functionIndexes);
        && missing == (m.name !in loaded)
        && statics.functionIndexes == (if missing then loaded[m.name := map[]] else loaded)
      ensures changed
      ensures m.name in statics.functionIndexes && |marks| == |m.functions|
      ensures forall i :: 0 <= i < |m.functions| ==>
        marks[i] == if !Instrumentable(m.functions[i]) then Skipped
                    else if m.functions[i].name in statics.functionIndexes[m.name]
                    then Marked(statics.functionIndexes[m.name][m.functions[i].name])
                    else Unindexed
    {
      if |statics.functionIndexes| == 0 {
        ReadIndexes(indexFile);
      }
      missing := m.name !in statics.functionIndexes;
      if missing {
        statics.functionIndexes := statics.functionIndexes[m.name := map[]];
      }
      var functionIndexMap := statics.functionIndexes[m.name];
      ghost var after := statics.functionIndexes;
      marks := [];
      for i := 0 to |m.functions|
        invariant statics.functionIndexes == after
        invariant |marks| == i
        invariant forall j :: 0 <= j < i ==>
          marks[j] == if !Instrumentable(m.functions[j]) then Skipped
                      else if m.functions[j].name in functionIndexMap
                      then Marked(functionIndexMap[m.functions[j].name])
                      else Unindexed
      {
        var f := m.functions[i];
        if f.isDeclaration || f.isIntrinsic || f.isEmpty {
          marks := marks + [Skipped];
        } else if f.name !in functionIndexMap {
          marks := marks + [Unindexed];
        } else {
          marks := marks + [Marked(functionIndexMap[f.name])];
        }
      }
      changed := true;
    }
  }

  /** Two pass objects in one process share `FunctionIndexes`.  The first run
      reads the first file and leaves at least its module's entry behind, so
      the second run never reads its file, whatever it holds, and finds the
      entry the first run inserted for a module with no line. */
  method SharedAcrossPasses(m1: Module, m2: Module, first: Option<string>, second: Option<string>)
    returns (missing1: bool, missing2: bool, after2: map<string, map<string, nat>>)
    requires first.Some? ==> AllWellFormed(Fields(first.value, '\n'))
    ensures missing1 == (m1.name !in Loaded(map[], first))
    ensures after2.Keys == Loaded(map[], first).Keys + {m1.name, m2.name}
    ensures m2.name == m1.name ==> !missing2
    ensures missing2 <==> m2.name !in Loaded(map[], first) && m2.name != m1.name
  {
    var statics := new Statics();
    var pass1 := new EnableMarkingPass(statics);
    var _, miss1, _ := pass1.RunOnModule(m1, first);
    missing1 := miss1;
    var pass2 := new EnableMarkingPass(statics);
    var _, miss2, _ := pass2.RunOnModule(m2, second);
    missing2 := miss2;
    after2 := statics.functionIndexes;
  }

  // ---------------------------------------------------------------------------
  // The guard `mark_func` puts in front of a function's entry block
  // ---------------------------------------------------------------------------

  /** One entry through `check_mark` / `mark_cov`: the flag is compared with 0;
      if it is 0 the mark block stores 1.  The result is the new flag and
      whether the mark block ran. */
  function EnterStep(flag: bv8): (r: (bv8, bool))
    ensures r.0 != 0
    ensures r.1 <==> flag == 0
    ensures flag != 0 ==> r.0 == flag
  {
    if flag == 0 then (1, true) else (flag, false)
  }

  /** For `n` successive entries starting from `flag`: whether the mark block
      ran on each of them. */
  function MarkTrace(flag: bv8, n: nat): (r: seq<bool>)
    ensures |r| == n
    decreases n
  {
    if n == 0 then []
    else
      var step := EnterStep(flag);
      [step.1] + MarkTrace(step.0, n - 1)
  }

  /** Once the flag is set, the mark block never runs again. */
  lemma {:induction false} MarkedStaysMarked(flag: bv8, n: nat)
    requires flag != 0
    ensures forall k :: 0 <= k < n ==> !MarkTrace(flag, n)[k]
  {
    if n > 0 {
      MarkedStaysMarked(flag, n - 1);
    }
  }

  /** From the initial 0, the mark block runs on the first entry and on no
      other: a function is marked once however often it is called. */
  lemma MarkOnce(n: nat)
    ensures forall k :: 0 <= k < n ==> MarkTrace(0, n)[k] == (k == 0)
  {
    if n > 0 {
      MarkedStaysMarked(1, n - 1);
      assert MarkTrace(0, n) == [true] + MarkTrace(1, n - 1);
    }
  }

  /** The private global `is_marked_<id>` of one marked function. */
  class MarkGuard {
    var isMarked: bv8

    /** The global is initialised to 0. */
    constructor ()
      ensures isMarked == 0
    {
      isMarked := 0;
    }

    /** An entry into the function: `marked` says the mark block ran. */
    method Enter() returns (marked: bool)
      modifies this
      ensures (isMarked, marked) == EnterStep(old(isMarked))
    {
      var loaded := isMarked;
      marked := loaded == 0;
      if marked {
        isMarked := 1;
      }
    }
  }
}
