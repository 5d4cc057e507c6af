/**
 * The reader of a cgroup v2 `cgroup.events` file (is_cgroup_populated).
 *
 * The file holds whitespace-separated `key value` pairs such as
 * "populated 1\nfrozen 0\n". The reader seeks to the start, reads at most 255
 * bytes, and scans the pairs with a string stream; it answers whether the
 * group still has live members, and answers "populated" on every failure.
 */
module CgroupEvents {
  import opened Wrappers
  import Decimal

  /** One less than the 256-byte buffer: the last byte is kept for the terminator. */
  const ReadCapacity: nat := 255

  /** The key whose value says whether the group has live members. */
  const PopulatedKey: string := "populated"

  const Nul: char := '\0'

  /** Whitespace as the "C" locale's isspace sees it: space, \t, \n, \v, \f, \r. */
  predicate IsSpace(c: char) {
    c == ' ' || c == '\t' || c == '\n' || c == '\r' || c as int == 0x0B || c as int == 0x0C
  }

  /** What `iss >> key` yields: a non-empty run of non-whitespace characters. */
  predicate IsToken(t: string) {
    |t| > 0 && forall i :: 0 <= i < |t| ==> !IsSpace(t[i])
  }

  /** The longest whitespace-free prefix of `s` (the characters after skipping ends at). */
  function Word(s: string): (w: string)
    ensures |w| <= |s| && w == s[..|w|]
    ensures forall i :: 0 <= i < |w| ==> !IsSpace(w[i])
    ensures |w| == |s| || IsSpace(s[|w|])
  {
    if s == [] || IsSpace(s[0]) then [] else [s[0]] + Word(s[1..])
  }

  /** The tokens that successive `>>` extractions of strings deliver from `s`. */
  function Tokens(s: string): (ts: seq<string>)
    ensures forall i :: 0 <= i < |ts| ==> IsToken(ts[i])
    decreases |s|
  {
    if s == [] then []
    else if IsSpace(s[0]) then Tokens(s[1..])
    else
      var w := Word(s);
      [w] + Tokens(s[|w|..])
  }

  /** What a string stream built from the NUL-terminated buffer sees: everything before the first NUL. */
  function UpToNul(s: string): (r: string)
    ensures |r| <= |s| && r == s[..|r|]
    ensures Nul !in r
    ensures |r| == |s| || s[|r|] == Nul
  {
    if s == [] || s[0] == Nul then [] else [s[0]] + UpToNul(s[1..])
  }

  /**
   * The loop `while (iss >> key >> value)` over the token list: the first pair
   * whose key is `populated` decides, and the scan stops with the safe default
   * "populated" as soon as a key or a value cannot be extracted.
   */
  function ScanPairs(ts: seq<string>): (populated: bool)
    ensures !populated ==> |ts| >= 2
    decreases |ts|
  {
    if |ts| < 2 then true
    else match Decimal.ParseInt(ts[1])
      case None => true
      case Some(v) => if ts[0] == PopulatedKey then v != 0 else ScanPairs(ts[2..])
  }

  /** Pair `j` is passed over by the scan: its key is another key and its value is a good `int`. */
  ghost predicate Skipped(ts: seq<string>, j: int) {
    0 <= j && 2 * j + 1 < |ts| && ts[2 * j] != PopulatedKey && Decimal.ParseInt(ts[2 * j + 1]).Some?
  }

  ghost predicate AllSkippedBefore(ts: seq<string>, i: int) {
    forall j :: 0 <= j < i ==> Skipped(ts, j)
  }

  /** Pair `i` is the first `populated` pair reached, and its value is zero. */
  ghost predicate ReportsEmptyAt(ts: seq<string>, i: int) {
    0 <= i && 2 * i + 1 < |ts| && AllSkippedBefore(ts, i)
    && ts[2 * i] == PopulatedKey && Decimal.ParseInt(ts[2 * i + 1]) == Some(0)
  }

  lemma {:induction false} SkippedShift(ts: seq<string>, i: int)
    requires 0 < i && 2 <= |ts|
    requires AllSkippedBefore(ts, i)
    ensures AllSkippedBefore(ts[2..], i - 1)
  {
    forall j | 0 <= j < i - 1 ensures Skipped(ts[2..], j) {
      assert Skipped(ts, j + 1);
    }
  }

  /** Pairs the scan passes over do not influence its answer. */
  lemma {:induction false} ScanSkipsPrefix(ts: seq<string>, i: nat)
    requires 2 * i <= |ts|
    requires AllSkippedBefore(ts, i)
    ensures ScanPairs(ts) == ScanPairs(ts[2 * i..])
    decreases i
  {
    if i > 0 {
      assert Skipped(ts, 0);
      SkippedShift(ts, i);
      ScanSkipsPrefix(ts[2..], i - 1);
      assert ts[2..][2 * (i - 1)..] == ts[2 * i..];
    }
  }

  /**
   * The answer is `value != 0` for the first pair whose key is `populated`,
   * whatever follows it.
   */
  lemma FirstPopulatedDecides(ts: seq<string>, i: nat, v: int)
    requires 2 * i + 1 < |ts| && AllSkippedBefore(ts, i)
    requires ts[2 * i] == PopulatedKey && Decimal.ParseInt(ts[2 * i + 1]) == Some(v)
    ensures ScanPairs(ts) == (v != 0)
  {
    ScanSkipsPrefix(ts, i);
    assert ts[2 * i..][0] == ts[2 * i] && ts[2 * i..][1] == ts[2 * i + 1];
  }

  /** Later `populated` pairs are never consulted: anything after the deciding pair can be replaced. */
  lemma LaterPairsIgnored(ts: seq<string>, i: nat, rest: seq<string>)
    requires 2 * i + 1 < |ts| && AllSkippedBefore(ts, i)
    requires ts[2 * i] == PopulatedKey && Decimal.ParseInt(ts[2 * i + 1]).Some?
    ensures ScanPairs(ts[..2 * i + 2] + rest) == ScanPairs(ts)
  {
    var us := ts[..2 * i + 2] + rest;
    assert AllSkippedBefore(us, i) by {
      forall j | 0 <= j < i ensures Skipped(us, j) {
        assert Skipped(ts, j);
      }
    }
    FirstPopulatedDecides(ts, i, Decimal.ParseInt(ts[2 * i + 1]).value);
    FirstPopulatedDecides(us, i, Decimal.ParseInt(ts[2 * i + 1]).value);
  }

  /**
   * A value that is not an `int`, reached before any `populated` pair, ends the
   * scan with "populated"; the pairs after it are never examined.
   */
  lemma MalformedValueStops(ts: seq<string>, i: nat)
    requires 2 * i + 1 < |ts| && AllSkippedBefore(ts, i)
    requires Decimal.ParseInt(ts[2 * i + 1]).None?
    ensures ScanPairs(ts)
  {
    ScanSkipsPrefix(ts, i);
    assert ts[2 * i..][1] == ts[2 * i + 1];
  }

  /** A trailing key without a value, reached before any `populated` pair, also ends with "populated". */
  lemma DanglingKeyStops(ts: seq<string>, i: nat)
    requires 2 * i + 1 == |ts| && AllSkippedBefore(ts, i)
    ensures ScanPairs(ts)
  {
    ScanSkipsPrefix(ts, i);
    assert |ts[2 * i..]| == 1;
  }

  /** Without any `populated` key the answer is the safe default. */
  lemma {:induction false} NoPopulatedKeyDefault(ts: seq<string>)
    requires forall j :: 0 <= j && 2 * j < |ts| ==> ts[2 * j] != PopulatedKey
    ensures ScanPairs(ts)
    decreases |ts|
  {
    if |ts| >= 2 && Decimal.ParseInt(ts[1]).Some? {
      assert ts[0] != PopulatedKey by { assert 2 * 0 < |ts|; }
      forall j | 0 <= j && 2 * j < |ts[2..]| ensures ts[2..][2 * j] != PopulatedKey {
        assert ts[2..][2 * j] == ts[2 * (j + 1)];
      }
      NoPopulatedKeyDefault(ts[2..]);
    }
  }

  /** A "not populated" answer always comes from a `populated` pair holding zero. */
  lemma {:induction false} EmptyReportWitness(ts: seq<string>) returns (i: nat)
    requires !ScanPairs(ts)
    ensures ReportsEmptyAt(ts, i)
    decreases |ts|
  {
    assert |ts| >= 2 && Decimal.ParseInt(ts[1]).Some?;
    if ts[0] == PopulatedKey {
      i := 0;
    } else {
      var rest := ts[2..];
      assert !ScanPairs(rest);
      var k := EmptyReportWitness(rest);
      i := k + 1;
      assert rest[2 * k] == ts[2 * i] && rest[2 * k + 1] == ts[2 * i + 1];
      forall j | 0 <= j < i ensures Skipped(ts, j) {
        if j > 0 {
          assert Skipped(rest, j - 1);
          assert rest[2 * (j - 1)] == ts[2 * j] && rest[2 * (j - 1) + 1] == ts[2 * j + 1];
        }
      }
    }
  }

  /** The scan answers "not populated" exactly when the first `populated` pair it reaches holds zero. */
  lemma NotPopulatedIff(ts: seq<string>)
    ensures !ScanPairs(ts) <==> exists i :: ReportsEmptyAt(ts, i)
  {
    if !ScanPairs(ts) {
      var i := EmptyReportWitness(ts);
    }
    if exists i :: ReportsEmptyAt(ts, i) {
      var i :| ReportsEmptyAt(ts, i);
      FirstPopulatedDecides(ts, i, 0);
    }
  }

  /**
   * The OS's side of one call: whether `lseek(fd, 0, SEEK_SET)` succeeded,
   * whether `read` succeeded, and the file's contents at that moment.
   */
  datatype EventsRead = EventsRead(seekOk: bool, readOk: bool, file: string)

  /** read(fd, buf, 255): -1 on failure, otherwise as many bytes as the file and the buffer allow. */
  function BytesRead(e: EventsRead): (n: int)
    ensures n <= ReadCapacity
    ensures n == -1 <==> !e.readOk
    ensures n == -1 || (0 <= n <= |e.file| && (n == |e.file| || n == ReadCapacity))
  {
    if !e.readOk then -1 else if |e.file| < ReadCapacity then |e.file| else ReadCapacity
  }

  /** The text the string stream scans: the bytes read, cut at the first NUL. */
  function Record(e: EventsRead): string
    requires BytesRead(e) >= 0
  {
    UpToNul(e.file[..BytesRead(e)])
  }

  /** is_cgroup_populated: true means the group may still have members; false only on a positive report. */
  function IsCgroupPopulated(e: EventsRead): (populated: bool)
    ensures !e.seekOk ==> populated
    ensures BytesRead(e) <= 0 ==> populated
    ensures !e.readOk || e.file == [] ==> populated
  {
    if !e.seekOk then true
    else if BytesRead(e) <= 0 then true
    else ScanPairs(Tokens(Record(e)))
  }

  /** The reader reports an empty group exactly when the seek and a non-empty read succeed and the record says `populated 0` first. */
  lemma ReportsEmptyIff(e: EventsRead)
    ensures !IsCgroupPopulated(e) <==>
      e.seekOk && BytesRead(e) > 0 && exists i :: ReportsEmptyAt(Tokens(Record(e)), i)
  {
    if e.seekOk && BytesRead(e) > 0 {
      assert IsCgroupPopulated(e) == ScanPairs(Tokens(Record(e)));
      NotPopulatedIff(Tokens(Record(e)));
    }
  }

  /** Content past the first 255 bytes is never considered. */
  lemma OnlyFirstBytesCount(e: EventsRead, extra: string)
    requires |e.file| == ReadCapacity
    ensures IsCgroupPopulated(e.(file := e.file + extra)) == IsCgroupPopulated(e)
  {
    var f := e.(file := e.file + extra);
    if e.readOk {
      assert f.file[..BytesRead(f)] == e.file[..BytesRead(e)];
    }
  }

  /** Content after a NUL byte is never considered: the stream is built from a C string. */
  lemma TextAfterNulIgnored(e: EventsRead, a: string, b: string)
    requires |a| < ReadCapacity && Nul !in a
    requires e.file == a + [Nul] + b
    ensures IsCgroupPopulated(e) == IsCgroupPopulated(e.(file := a))
  {
    var f := e.(file := a);
    if e.seekOk && e.readOk {
      var n := BytesRead(e);
      var buf := e.file[..n];
      assert buf == a + [Nul] + buf[|a| + 1..];
      UpToNulStops(a, buf[|a| + 1..]);
      assert f.file[..BytesRead(f)] == a;
      UpToNulNone(a);
      if a == [] {
        assert Tokens(Record(e)) == [];
      }
    }
  }

  lemma UpToNulNone(s: string)
    requires Nul !in s
    ensures UpToNul(s) == s
  {
  }

  lemma {:induction false} UpToNulStops(a: string, b: string)
    requires Nul !in a
    ensures UpToNul(a + [Nul] + b) == a
  {
    if a != [] {
      assert (a + [Nul] + b)[1..] == a[1..] + [Nul] + b;
      UpToNulStops(a[1..], b);
    }
  }

  /** A token followed by whitespace (or by nothing) is extracted whole, and the scan goes on after it. */
  lemma TokensCons(t: string, r: string)
    requires IsToken(t)
    requires r == [] || IsSpace(r[0])
    ensures Tokens(t + r) == [t] + Tokens(r)
  {
    WordOfToken(t, r);
    assert (t + r)[|t|..] == r;
  }

  lemma {:induction false} WordOfToken(t: string, r: string)
    requires forall i :: 0 <= i < |t| ==> !IsSpace(t[i])
    requires r == [] || IsSpace(r[0])
    ensures Word(t + r) == t
  {
    if t != [] {
      assert (t + r)[1..] == t[1..] + r;
      WordOfToken(t[1..], r);
    }
  }

  /** Whitespace before a token is skipped. */
  lemma TokensSkipSpace(c: char, r: string)
    requires IsSpace(c)
    ensures Tokens([c] + r) == Tokens(r)
  {
  }

  // ---------------------------------------------------------------------------
  // The record as the kernel writes it: one "key value\n" line per pair.

  /** One line of `cgroup.events`. */
  function Line(key: string, value: int): string {
    key + " " + Decimal.Show(value) + "\n"
  }

  function EventsText(pairs: seq<(string, int)>): string {
    if pairs == [] then "" else Line(pairs[0].0, pairs[0].1) + EventsText(pairs[1..])
  }

  function FlattenPairs(pairs: seq<(string, int)>): seq<string> {
    if pairs == [] then [] else [pairs[0].0, Decimal.Show(pairs[0].1)] + FlattenPairs(pairs[1..])
  }

  /** The value of the first pair with the given key, if any. */
  function FirstValue(pairs: seq<(string, int)>, key: string): (r: Option<int>)
    ensures r.Some? <==> exists i :: 0 <= i < |pairs| && pairs[i].0 == key
    ensures r.Some? ==> exists i :: (0 <= i < |pairs| && pairs[i] == (key, r.value)
                                     && forall j :: 0 <= j < i ==> pairs[j].0 != key)
  {
    if pairs == [] then None
    else if pairs[0].0 == key then Some(pairs[0].1)
    else
      var r := FirstValue(pairs[1..], key);
      if r.Some? then
        assert exists i :: (0 <= i < |pairs| && pairs[i] == (key, r.value)
                            && forall j :: 0 <= j < i ==> pairs[j].0 != key) by {
          var k :| 0 <= k < |pairs[1..]| && pairs[1..][k] == (key, r.value)
            && forall j :: 0 <= j < k ==> pairs[1..][j].0 != key;
          assert pairs[k + 1] == (key, r.value);
          assert forall j :: 0 <= j < k + 1 ==> pairs[j].0 != key by {
            forall j | 0 <= j < k + 1 ensures pairs[j].0 != key {
              if j > 0 { assert pairs[j] == pairs[1..][j - 1]; }
            }
          }
        }
        r
      else
        assert forall i :: 0 <= i < |pairs| ==> pairs[i].0 != key by {
          forall i | 0 <= i < |pairs| ensures pairs[i].0 != key {
            if i > 0 { assert pairs[i] == pairs[1..][i - 1]; }
          }
        }
        r
  }

  /** Keys the kernel writes: tokens without NUL bytes. */
  ghost predicate WellFormedPairs(pairs: seq<(string, int)>) {
    forall i :: 0 <= i < |pairs| ==>
      IsToken(pairs[i].0) && Nul !in pairs[i].0 && Decimal.IntMin <= pairs[i].1 <= Decimal.IntMax
  }

  lemma ShowIsToken(v: int)
    ensures IsToken(Decimal.Show(v)) && Nul !in Decimal.Show(v)
  {
  }

  /** One kernel line contributes its key and its value as two tokens. */
  lemma TokensOfLine(k: string, v: int, rest: string)
    requires IsToken(k)
    ensures Tokens(Line(k, v) + rest) == [k, Decimal.Show(v)] + Tokens(rest)
  {
    ShowIsToken(v);
    var sv := Decimal.Show(v);
    var tail := sv + ("\n" + rest);
    assert Line(k, v) + rest == k + (" " + tail);
    assert Tokens(tail) == [sv] + Tokens(rest) by {
      TokensSkipSpace('\n', rest);
      TokensCons(sv, "\n" + rest);
    }
    assert Tokens(k + (" " + tail)) == [k] + Tokens(tail) by {
      TokensSkipSpace(' ', tail);
      TokensCons(k, " " + tail);
    }
  }

  lemma WellFormedTail(pairs: seq<(string, int)>)
    requires pairs != [] && WellFormedPairs(pairs)
    ensures WellFormedPairs(pairs[1..])
  {
  }

  lemma {:induction false} TokensOfEventsText(pairs: seq<(string, int)>)
    requires WellFormedPairs(pairs)
    ensures Tokens(EventsText(pairs)) == FlattenPairs(pairs)
    ensures Nul !in EventsText(pairs)
    decreases |pairs|
  {
    if pairs != [] {
      WellFormedTail(pairs);
      TokensOfEventsText(pairs[1..]);
      ShowIsToken(pairs[0].1);
      TokensOfLine(pairs[0].0, pairs[0].1, EventsText(pairs[1..]));
    }
  }

  lemma {:induction false} ScanFlattenPairs(pairs: seq<(string, int)>)
    requires WellFormedPairs(pairs)
    ensures ScanPairs(FlattenPairs(pairs)) ==
      match FirstValue(pairs, PopulatedKey)
      case Some(v) => v != 0
      case None => true
    decreases |pairs|
  {
    if pairs != [] {
      Decimal.ParseIntShow(pairs[0].1);
      var ts := FlattenPairs(pairs);
      assert ts[2..] == FlattenPairs(pairs[1..]);
      WellFormedTail(pairs);
      ScanFlattenPairs(pairs[1..]);
    }
  }

  /**
   * For a record in the kernel's own format that fits the buffer, the reader's
   * answer is the value of the first `populated` line (true if there is none).
   */
  lemma ReadsKernelRecord(pairs: seq<(string, int)>)
    requires WellFormedPairs(pairs)
    requires |EventsText(pairs)| <= ReadCapacity
    ensures IsCgroupPopulated(EventsRead(true, true, EventsText(pairs))) ==
      match FirstValue(pairs, PopulatedKey)
      case Some(v) => v != 0
      case None => true
  {
    var e := EventsRead(true, true, EventsText(pairs));
    TokensOfEventsText(pairs);
    ScanFlattenPairs(pairs);
    assert e.file[..BytesRead(e)] == e.file;
    UpToNulNone(e.file);
    if pairs == [] {
      assert FirstValue(pairs, PopulatedKey).None?;
    }
  }
}
