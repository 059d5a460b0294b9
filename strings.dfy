/**
 * The string helpers that each of the three passes carries a private copy of:
 * `replace` (rewrite every occurrence of one string by another, in place),
 * `split` (cut a line at a delimiter the way repeated `std::getline` does),
 * the module-path key built from two `replace` calls, and the `std::stoi`
 * conversion of the index tokens, restricted to the well-formed tokens the
 * passes expect.
 */
module Strings {
  import opened Wrappers

  // ---------------------------------------------------------------------------
  // std::string::find
  // ---------------------------------------------------------------------------

  /** `pat` occurs in `s` starting at index `i`. */
  predicate OccursAt(s: string, pat: string, i: nat)
  {
    i + |pat| <= |s| && s[i..i + |pat|] == pat
  }

  /** `s.find(pat, start)` for a non-empty `pat`: the first index at or after
      `start` where `pat` occurs, or None for `npos`. */
  function Find(s: string, pat: string, start: nat): (r: Option<nat>)
    requires |pat| > 0
    ensures r.Some? ==> start <= r.value && OccursAt(s, pat, r.value)
    ensures forall i :: start <= i && (r.None? || i < r.value) ==> !OccursAt(s, pat, i)
    decreases |s| - start
  {
    if start + |pat| > |s| then None
    else if OccursAt(s, pat, start) then Some(start)
    else Find(s, pat, start + 1)
  }

  lemma OccursAtSuffix(s: string, pat: string, k: nat, i: nat)
    requires k <= |s|
    ensures OccursAt(s[k..], pat, i) <==> OccursAt(s, pat, k + i)
  {
    if k + i + |pat| <= |s| {
      assert s[k..][i..i + |pat|] == s[k + i..k + i + |pat|];
    }
  }

  // ---------------------------------------------------------------------------
  // replace
  // ---------------------------------------------------------------------------

  /** What `replace(str, from, to)` leaves in `str`: scanning left to right,
      every occurrence of `from` that does not overlap an earlier replaced one
      becomes `to`; text produced by a replacement is never scanned again. */
  function Replaced(s: string, from: string, to: string): (r: string)
    ensures from == [] ==> r == s
    ensures |from| == |to| ==> |r| == |s|
    decreases |s|
  {
    if from == [] || s == [] then s
    else if OccursAt(s, from, 0) then to + Replaced(s[|from|..], from, to)
    else [s[0]] + Replaced(s[1..], from, to)
  }

  /** A prefix of `s` holding no occurrence of `from` is copied unchanged. */
  lemma {:induction false} ReplacedSkip(s: string, from: string, to: string, k: nat)
    requires |from| > 0 && k <= |s|
    requires forall i :: 0 <= i < k ==> !OccursAt(s, from, i)
    ensures Replaced(s, from, to) == s[..k] + Replaced(s[k..], from, to)
  {
    if k > 0 {
      assert !OccursAt(s, from, 0);
      forall i | 0 <= i < k - 1
        ensures !OccursAt(s[1..], from, i)
      {
        OccursAtSuffix(s, from, 1, i);
      }
      ReplacedSkip(s[1..], from, to, k - 1);
      assert s[1..][..k - 1] == s[1..k];
      assert s[1..][k - 1..] == s[k..];
      assert [s[0]] + s[1..k] == s[..k];
    }
  }

  /** A string without any occurrence of `from` is left as it is. */
  lemma NoOccurrenceUnchanged(s: string, from: string, to: string)
    requires |from| > 0
    requires forall i :: 0 <= i ==> !OccursAt(s, from, i)
    ensures Replaced(s, from, to) == s
  {
    ReplacedSkip(s, from, to, |s|);
    assert s[..|s|] == s;
  }

  /** A match at the front is replaced and the scan resumes after it. */
  lemma ReplacedAtMatch(s: string, from: string, to: string)
    requires |from| > 0 && OccursAt(s, from, 0)
    ensures Replaced(s, from, to) == to + Replaced(s[|from|..], from, to)
  {
  }

  /** Replacing from `pos` on: the text up to the first match `p` is copied,
      the match becomes `to`, and the scan resumes after the match. */
  lemma ReplacedFirstMatch(r: string, from: string, to: string, pos: nat, p: nat)
    requires |from| > 0 && pos <= p
    requires OccursAt(r, from, p)
    requires forall i :: pos <= i < p ==> !OccursAt(r, from, i)
    ensures Replaced(r[pos..], from, to) == r[pos..p] + (to + Replaced(r[p + |from|..], from, to))
  {
    var rest := r[pos..];
    forall i | 0 <= i < p - pos
      ensures !OccursAt(rest, from, i)
    {
      OccursAtSuffix(r, from, pos, i);
    }
    ReplacedSkip(rest, from, to, p - pos);
    assert rest[..p - pos] == r[pos..p];
    assert rest[p - pos..] == r[p..];
    assert OccursAt(r[p..], from, 0) by { OccursAtSuffix(r, from, p, 0); }
    ReplacedAtMatch(r[p..], from, to);
    assert r[p..][|from|..] == r[p + |from|..];
  }

  /** One round of the `replace` loop keeps "text already scanned +
      replacement of the rest" equal to its value before the round. */
  lemma ReplaceStep(r: string, from: string, to: string, pos: nat, p: nat)
    requires |from| > 0 && pos <= p
    requires OccursAt(r, from, p)
    requires forall i :: pos <= i < p ==> !OccursAt(r, from, i)
    ensures var r' := r[..p] + to + r[p + |from|..];
      r'[..p + |to|] + Replaced(r'[p + |to|..], from, to) == r[..pos] + Replaced(r[pos..], from, to)
  {
    ReplacedFirstMatch(r, from, to, pos, p);
    Splice(r, to, pos, p, |from|, Replaced(r[pos..], from, to), Replaced(r[p + |from|..], from, to));
  }

  lemma Splice(r: string, to: string, pos: nat, p: nat, k: nat, whole: string, done: string)
    requires pos <= p && p + k <= |r|
    requires whole == r[pos..p] + (to + done)
    ensures var r' := r[..p] + to + r[p + k..];
      r'[..p + |to|] == r[..p] + to && r'[p + |to|..] == r[p + k..] &&
      r[..p] + to + done == r[..pos] + whole
  {
    var r' := r[..p] + to + r[p + k..];
    assert r'[..p + |to|] == r[..p] + to;
    assert r'[p + |to|..] == r[p + k..];
    assert r[..pos] + r[pos..p] == r[..p];
  }

  /** `replace` as the source writes it: a `find` loop that rewrites `str` and
      resumes the scan just after the inserted text, so it terminates even
      when `to` contains `from` (`|str| - start_pos` drops by `|from|` on every
      round).  The result is the left-to-right replacement `Replaced`. */
  method Replace(str: string, from: string, to: string) returns (r: string)
    ensures r == Replaced(str, from, to)
  {
    r := str;
    if from == [] {
      return;
    }
    var pos: nat := 0;
    var found := Find(r, from, pos);
    while found.Some?
      invariant pos <= |r|
      invariant found == Find(r, from, pos)
      invariant r[..pos] + Replaced(r[pos..], from, to) == Replaced(str, from, to)
      decreases |r| - pos
    {
      var p := found.value;
      ReplaceStep(r, from, to, pos, p);
      r := r[..p] + to + r[p + |from|..];
      pos := p + |to|;
      found := Find(r, from, pos);
    }
    forall i | 0 <= i
      ensures !OccursAt(r[pos..], from, i)
    {
      OccursAtSuffix(r, from, pos, i);
    }
    NoOccurrenceUnchanged(r[pos..], from, to);
    assert r[..pos] + r[pos..] == r;
  }

  /** With a one-character `from` and `to`, `replace` is a character-for-character
      substitution: the length is kept and only the positions holding `from`
      change. */
  lemma {:induction false} ReplacedChar(s: string, a: char, b: char)
    ensures |Replaced(s, [a], [b])| == |s|
    ensures forall i :: 0 <= i < |s| ==>
      Replaced(s, [a], [b])[i] == if s[i] == a then b else s[i]
  {
    if s != [] {
      ReplacedChar(s[1..], a, b);
      if s[0] == a {
        assert OccursAt(s, [a], 0) by { assert s[0..1] == [a]; }
      } else {
        assert !OccursAt(s, [a], 0) by { assert s[0..1] == [s[0]]; }
      }
      var r := Replaced(s, [a], [b]);
      assert r == [if s[0] == a then b else s[0]] + Replaced(s[1..], [a], [b]);
      forall i | 0 <= i < |s|
        ensures r[i] == if s[i] == a then b else s[i]
      {
        if i > 0 {
          assert r[i] == Replaced(s[1..], [a], [b])[i - 1];
        }
      }
    }
  }

  // ---------------------------------------------------------------------------
  // Module-path key
  // ---------------------------------------------------------------------------

  /** The key a module name is stored under: `replace(path, "/", "@")` followed
      by `replace(path, ".", "$")`.  Every `/` becomes `@`, every `.` becomes
      `$`, nothing else changes, so the key is a single file-name component. */
  function PathKey(path: string): (key: string)
    ensures |key| == |path|
    ensures forall i :: 0 <= i < |path| ==>
      key[i] == (if path[i] == '/' then '@' else if path[i] == '.' then '$' else path[i])
    ensures '/' !in key && '.' !in key
  {
    var slashFree := Replaced(path, "/", "@");
    ReplacedChar(path, '/', '@');
    ReplacedChar(slashFree, '.', '$');
    Replaced(slashFree, ".", "$")
  }

  /** Names that do not themselves contain `@` or `$` have distinct keys. */
  lemma PathKeyInjective(a: string, b: string)
    requires '@' !in a && '$' !in a && '@' !in b && '$' !in b
    requires PathKey(a) == PathKey(b)
    ensures a == b
  {
  }

  /** Names that do contain `@` or `$` can share a key with another name:
      `a/b` and `a@b` are both stored as `a@b`. */
  lemma PathKeyCollision()
    ensures PathKey("a/b") == PathKey("a@b") == "a@b"
  {
  }

  /** The two `replace` calls that turn a module name into its key, run on
      the module name's copy as the passes do. */
  method ModuleKey(moduleName: string) returns (key: string)
    ensures key == PathKey(moduleName)
  {
    key := Replace(moduleName, "/", "@");
    key := Replace(key, ".", "$");
  }

  // ---------------------------------------------------------------------------
  // split
  // ---------------------------------------------------------------------------

  /** Length of the field at the front of `s`: the characters before the first
      `delim`, or all of `s`. */
  function FieldLength(s: string, delim: char): (n: nat)
    ensures n <= |s|
    ensures forall i :: 0 <= i < n ==> s[i] != delim
    ensures n < |s| ==> s[n] == delim
  {
    if s == [] || s[0] == delim then 0 else 1 + FieldLength(s[1..], delim)
  }

  /** What `split(s, delim)` returns: the fields that successive
      `std::getline(ss, item, delim)` calls extract.  Each call takes the text
      up to the next delimiter and consumes it; a call at the end of the input
      fails, so a trailing empty field is dropped while inner empty fields are
      kept. */
  function Fields(s: string, delim: char): (r: seq<string>)
    ensures s != [] <==> r != []
    ensures forall k :: 0 <= k < |r| ==> delim !in r[k]
    decreases |s|
  {
    if s == [] then []
    else
      var n := FieldLength(s, delim);
      if n == |s| then [s] else [s[..n]] + Fields(s[n + 1..], delim)
  }

  /** The fields joined back with the delimiter between them. */
  function Join(parts: seq<string>, delim: char): string
  {
    if parts == [] then []
    else if |parts| == 1 then parts[0]
    else parts[0] + [delim] + Join(parts[1..], delim)
  }

  /** Joining a first part in front of at least one more. */
  lemma JoinCons(first: string, rest: seq<string>, delim: char)
    requires rest != []
    ensures Join([first] + rest, delim) == first + [delim] + Join(rest, delim)
  {
    assert ([first] + rest)[1..] == rest;
  }

  /** `s` without its last character when that is `delim`. */
  function DropFinal(s: string, delim: char): string
  {
    if s != [] && s[|s| - 1] == delim then s[..|s| - 1] else s
  }

  /** `split` loses nothing but one trailing delimiter: joining its fields
      with the delimiter gives the input back, minus a final delimiter. */
  lemma {:induction false} JoinFields(s: string, delim: char)
    ensures Join(Fields(s, delim), delim) == DropFinal(s, delim)
    decreases |s|
  {
    if s != [] {
      var n := FieldLength(s, delim);
      if n < |s| {
        var t := s[n + 1..];
        JoinFields(t, delim);
        SplitAround(s, n);
        if t == [] {
          assert s == s[..n] + [delim];
        } else {
          assert Fields(s, delim) == [s[..n]] + Fields(t, delim);
          JoinAfterField(s[..n], delim, t, Fields(t, delim));
        }
      }
    }
  }

  /** Joining a field in front of the fields of a non-empty rest. */
  lemma JoinAfterField(a: string, delim: char, t: string, rest: seq<string>)
    requires t != [] && rest != []
    requires Join(rest, delim) == DropFinal(t, delim)
    ensures Join([a] + rest, delim) == DropFinal(a + [delim] + t, delim)
  {
    JoinCons(a, rest, delim);
    DropLastAfter(a, delim, t);
  }

  /** A sequence is what comes before, at and after position `n`. */
  lemma SplitAround(s: string, n: nat)
    requires n < |s|
    ensures s == s[..n] + [s[n]] + s[n + 1..]
  {
  }

  /** The last character, and all but it, of `a + [c] + t` with `t` non-empty. */
  lemma DropLastAfter(a: string, c: char, t: string)
    requires t != []
    ensures var s := a + [c] + t;
      s[|s| - 1] == t[|t| - 1] && s[..|s| - 1] == a + [c] + t[..|t| - 1]
  {
  }

  /** The field starting at `start` ends at `pos`, the next delimiter or the
      end of `s`: it is the next token, and scanning resumes past `pos`. */
  lemma FieldAt(s: string, delim: char, start: nat, pos: nat)
    requires start < |s| && start <= pos <= |s|
    requires forall i :: start <= i < pos ==> s[i] != delim
    requires pos < |s| ==> s[pos] == delim
    ensures Fields(s[start..], delim) == [s[start..pos]] + Fields(s[if pos < |s| then pos + 1 else pos..], delim)
  {
    var t := s[start..];
    var n := FieldLength(t, delim);
    assert n == pos - start;
    assert t[..n] == s[start..pos];
    if pos < |s| {
      assert t[n + 1..] == s[pos + 1..];
      assert Fields(t, delim) == [t[..n]] + Fields(t[n + 1..], delim);
    } else {
      assert t[..n] == t;
      assert Fields(t, delim) == [t];
      assert s[pos..] == [];
    }
  }

  /** One `std::getline(ss, item, delim)` call on a stream positioned at
      `pos` (not at its end): it extracts characters up to the next delimiter
      or the end, and consumes the delimiter.  The extracted field is the next
      token of `Fields`. */
  method GetLine(s: string, pos: nat, delim: char) returns (item: string, next: nat)
    requires pos < |s|
    ensures pos < next <= |s|
    ensures Fields(s[pos..], delim) == [item] + Fields(s[next..], delim)
  {
    var end := pos;
    item := "";
    while end < |s| && s[end] != delim
      invariant pos <= end <= |s|
      invariant item == s[pos..end]
      invariant forall i :: pos <= i < end ==> s[i] != delim
    {
      item := item + [s[end]];
      end := end + 1;
    }
    FieldAt(s, delim, pos, end);
    next := if end < |s| then end + 1 else end;
    assert next > pos by {
      if end == pos { assert s[pos] == delim; }
    }
  }

  /** `split` as the source writes it: `getline` calls until the stream is
      exhausted, each extracted field appended to the result. */
  method Split(s: string, delim: char) returns (tokens: seq<string>)
    ensures tokens == Fields(s, delim)
  {
    tokens := [];
    var pos := 0;
    assert s[0..] == s;
    while pos < |s|
      invariant pos <= |s|
      invariant tokens + Fields(s[pos..], delim) == Fields(s, delim)
      decreases |s| - pos
    {
      var item, next := GetLine(s, pos, delim);
      ghost var rest := Fields(s[next..], delim);
      assert tokens + ([item] + rest) == (tokens + [item]) + rest;
      tokens := tokens + [item];
      pos := next;
    }
    assert s[pos..] == [];
    assert tokens + [] == tokens;
  }

  // ---------------------------------------------------------------------------
  // std::stoi on the index tokens
  // ---------------------------------------------------------------------------

  /** Largest value of a C++ `int`; `std::stoi` throws beyond it. */
  const INT_MAX: nat := 0x7fff_ffff

  predicate IsDigit(c: char)
  {
    '0' <= c <= '9'
  }

  predicate AllDigits(s: string)
  {
    forall i :: 0 <= i < |s| ==> IsDigit(s[i])
  }

  /** Value of a string of decimal digits, most significant first. */
  function DecimalValue(s: string): nat
    requires AllDigits(s)
  {
    if s == [] then 0
    else 10 * DecimalValue(s[..|s| - 1]) + (s[|s| - 1] - '0') as nat
  }

  /** An index token `std::stoi` converts completely: an optional `+`, then at
      least one decimal digit, with a value that fits an `int`. */
  predicate IsIntToken(t: string)
  {
    var digits := if t != [] && t[0] == '+' then t[1..] else t;
    digits != [] && AllDigits(digits) && DecimalValue(digits) <= INT_MAX
  }

  /** `std::stoi(t)` on a well-formed token. */
  function Stoi(t: string): (v: nat)
    requires IsIntToken(t)
    ensures v <= INT_MAX
  {
    var digits := if t[0] == '+' then t[1..] else t;
    DecimalValue(digits)
  }

  /** Removing a leading `+` before `stoi`, as the profiling index reader
      does, gives the value `stoi` gives the whole token. */
  lemma StripPlus(t: string)
    requires IsIntToken(t) && t[0] == '+'
    ensures IsIntToken(t[1..]) && Stoi(t[1..]) == Stoi(t)
  {
  }

  /** `std::to_string` of a non-negative value: its decimal digits, most
      significant first, with no leading zero. */
  function DecimalString(n: nat): (s: string)
    ensures s != [] && AllDigits(s)
    ensures |s| > 1 ==> s[0] != '0'
    decreases n
  {
    var digit := ('0' as int + n % 10) as char;
    if n < 10 then [digit] else DecimalString(n / 10) + [digit]
  }

  /** Reading the digits back gives the value. */
  lemma {:induction false} DecimalRoundTrip(n: nat)
    ensures DecimalValue(DecimalString(n)) == n
    decreases n
  {
    var s := DecimalString(n);
    if n >= 10 {
      DecimalRoundTrip(n / 10);
      assert s[..|s| - 1] == DecimalString(n / 10);
    }
  }

  /** `stoi` undoes `to_string` on every `int` that is not negative, with or
      without a leading `+`. */
  lemma StoiOfDecimal(n: nat)
    requires n <= INT_MAX
    ensures IsIntToken(DecimalString(n)) && Stoi(DecimalString(n)) == n
    ensures IsIntToken("+" + DecimalString(n)) && Stoi("+" + DecimalString(n)) == n
  {
    DecimalRoundTrip(n);
    assert ("+" + DecimalString(n))[1..] == DecimalString(n);
  }
}
