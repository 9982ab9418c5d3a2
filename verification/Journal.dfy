/**
 src/journal.c: sets are logged as lines before they take effect, and replayed after
 a crash, whatever part of the file has reached the disk.
 */
module Journal {
  import opened Bytes
  import opened Options
  import opened DiskWalk
  import opened Store

  const MAX_PATH := 256

  /** The table that a set leaves behind, with no compare-and-swap. */
  function SetTo(ht: map<Str, Kv>, image: Option<seq<byte>>, hash: Str -> u32, key: Str, val: Str): map<Str, Kv> {
    SetStep(ht, image, hash, key, val, 0).0
  }

  function SetAll(ht: map<Str, Kv>, image: Option<seq<byte>>, hash: Str -> u32, sets: seq<(Str, Str)>): map<Str, Kv>
    decreases |sets|
  {
    if sets == [] then ht else SetAll(SetTo(ht, image, hash, sets[0].0, sets[0].1), image, hash, sets[1..])
  }

  /** `sdb_journal_log`: the line is formatted into a buffer of 256 bytes. */
  function LogLine(key: Str, val: Str): Str {
    var line := key + [EQUALS] + val + [LF];
    if |line| < MAX_PATH then line else line[..MAX_PATH - 1]
  }

  /** `k=v` and a line feed. */
  lemma LogLineIs(key: Str, val: Str)
    requires |key| + |val| <= 253
    ensures LogLine(key, val) == key + [61] + val + [10]
  {
  }

  function Log(sets: seq<(Str, Str)>): Str {
    if sets == [] then [] else LogLine(sets[0].0, sets[0].1) + Log(sets[1..])
  }

  /** The line fits, and splits where it was joined. */
  predicate Loggable(key: Str, val: Str) {
    && IsCStr(key) && IsCStr(val) && EQUALS !in key && LF !in key && LF !in val
    && |key| + |val| + 2 < MAX_PATH
  }

  /** One complete line. */
  function ReplayLine(ht: map<Str, Kv>, image: Option<seq<byte>>, hash: Str -> u32, line: Str): map<Str, Kv> {
    var eq := IndexOf(line, EQUALS);
    if eq == |line| then ht else SetTo(ht, image, hash, line[..eq], line[eq + 1..])
  }

  /** All complete lines. */
  function Replay(ht: map<Str, Kv>, image: Option<seq<byte>>, hash: Str -> u32, text: Str): map<Str, Kv>
    decreases |text|
  {
    var i := IndexOf(text, LF);
    if i == |text| then ht else Replay(ReplayLine(ht, image, hash, text[..i]), image, hash, text[i + 1..])
  }

  /** How many complete lines are sets. */
  function Changes(text: Str): nat
    decreases |text|
  {
    var i := IndexOf(text, LF);
    if i == |text| then 0 else (if EQUALS in text[..i] then 1 else 0) + Changes(text[i + 1..])
  }

  /** What loading a text logs again: each set that is not refused. */
  function Relog(text: Str): Str
    decreases |text|
  {
    var i := IndexOf(text, LF);
    if i == |text| then [] else RelogLine(text[..i]) + Relog(text[i + 1..])
  }

  function RelogLine(line: Str): Str {
    var eq := IndexOf(line, EQUALS);
    if eq == |line| then [] else RelogSet(line[..eq], line[eq + 1..])
  }

  function RelogSet(key: Str, val: Str): Str {
    if |key| >= KSZ || |val| >= VSZ then [] else LogLine(key, val)
  }

  lemma RelogOne(text: Str)
    ensures var i := IndexOf(text, LF);
            Relog(text) == if i == |text| then [] else RelogLine(text[..i]) + Relog(text[i + 1..])
  {
    hide IndexOf, RelogLine;
  }

  lemma ChangesOne(text: Str)
    ensures var i := IndexOf(text, LF);
            Changes(text) == if i == |text| then 0 else (if EQUALS in text[..i] then 1 else 0) + Changes(text[i + 1..])
  {
    hide IndexOf;
  }

  lemma ReplayOne(ht: map<Str, Kv>, image: Option<seq<byte>>, hash: Str -> u32, text: Str)
    ensures var i := IndexOf(text, LF);
            Replay(ht, image, hash, text) == if i == |text| then ht
                                             else Replay(ReplayLine(ht, image, hash, text[..i]), image, hash,
                                                         text[i + 1..])
  {
    hide IndexOf, ReplayLine;
  }

  /** `sdb_journal_load`, on the bytes read from the file. The journal is open, so the
      sets made here are logged behind what was read. */
  method Load(bytes: Str, ht0: map<Str, Kv>, image: Option<seq<byte>>, hash: Str -> u32)
    returns (ht: map<Str, Kv>, changes: nat, relog: Str)
    ensures ht == Replay(ht0, image, hash, CStr(bytes)) && changes == Changes(CStr(bytes))
            && relog == Relog(CStr(bytes))
  {
    hide CStr, ReplayLine, RelogLine, IndexOf, Replay, Changes, Relog;
    var str := CStr(bytes);
    ht, changes, relog := ht0, 0, [];
    var cur := 0;
    assert str[0..] == str;
    while true
      invariant 0 <= cur <= |str|
      invariant Replay(ht, image, hash, str[cur..]) == Replay(ht0, image, hash, str)
      invariant changes + Changes(str[cur..]) == Changes(str) && relog + Relog(str[cur..]) == Relog(str)
      decreases |str| - cur
    {
      var ptr := IndexOf(str[cur..], LF);
      ReplayOne(ht, image, hash, str[cur..]);
      ChangesOne(str[cur..]);
      RelogOne(str[cur..]);
      if ptr == |str[cur..]| {
        break;
      }
      var isSet, logged;
      ht, isSet, logged := LoadLine(str[cur..][..ptr], ht, image, hash);
      if isSet {
        changes := changes + 1;
      }
      Assoc(relog, logged, Relog(str[cur..][ptr + 1..]));
      relog := relog + logged;
      assert str[cur..][ptr + 1..] == str[cur + ptr + 1..];
      cur := cur + ptr + 1;
    }
  }

  method LoadLine(line: Str, ht0: map<Str, Kv>, image: Option<seq<byte>>, hash: Str -> u32)
    returns (ht: map<Str, Kv>, isSet: bool, logged: Str)
    ensures ht == ReplayLine(ht0, image, hash, line) && isSet == (EQUALS in line) && logged == RelogLine(line)
  {
    hide SetTo, RelogSet;
    var eq := IndexOf(line, EQUALS);
    ht, isSet, logged := ht0, eq < |line|, [];
    if isSet {
      logged := RelogSet(line[..eq], line[eq + 1..]);
      ht := SetTo(ht, image, hash, line[..eq], line[eq + 1..]);
    }
  }

  lemma LogLineReplays(ht: map<Str, Kv>, image: Option<seq<byte>>, hash: Str -> u32, key: Str, val: Str, rest: Str)
    requires Loggable(key, val)
    ensures Replay(ht, image, hash, LogLine(key, val) + rest)
            == Replay(SetTo(ht, image, hash, key, val), image, hash, rest)
  {
    hide SetTo, IndexOf;
    LineSplits(key, val, rest);
    ReplayOne(ht, image, hash, LogLine(key, val) + rest);
  }

  /** A logged line ends where its text does and splits at the first equals sign. */
  lemma LineSplits(key: Str, val: Str, rest: Str)
    requires Loggable(key, val)
    ensures var line := key + [EQUALS] + val;
            var text := LogLine(key, val) + rest;
            && IndexOf(text, LF) == |line| < |text| && text[..|line|] == line && text[|line| + 1..] == rest
            && IndexOf(line, EQUALS) == |key| < |line| && line[..|key|] == key && line[|key| + 1..] == val
  {
    hide IndexOf;
    var line := key + [EQUALS] + val;
    var text := LogLine(key, val) + rest;
    assert text[|line|] == LF && text[..|line|] == line && text[|line| + 1..] == rest;
    assert LF !in line;
    IndexUnique(text, LF, |line|);
    assert line[..|key|] == key && line[|key| + 1..] == val && line[|key|] == EQUALS;
    IndexUnique(line, EQUALS, |key|);
  }

  lemma PartReplays(ht: map<Str, Kv>, image: Option<seq<byte>>, hash: Str -> u32, part: Str)
    requires LF !in part
    ensures Replay(ht, image, hash, part) == ht
  {
    IndexNone(part, LF);
  }

  /** How many lines of the log a file of `n` bytes holds completely. */
  function Complete(sets: seq<(Str, Str)>, n: nat): (k: nat)
    ensures k <= |sets|
  {
    if sets == [] || n < |LogLine(sets[0].0, sets[0].1)| then 0
    else 1 + Complete(sets[1..], n - |LogLine(sets[0].0, sets[0].1)|)
  }

  /** Any byte prefix of the log replays to the state after a prefix of the sets: as
      many as are completely there. */
  lemma {:induction false} PrefixReplays(ht: map<Str, Kv>, image: Option<seq<byte>>, hash: Str -> u32,
                                         sets: seq<(Str, Str)>, n: nat)
    requires n <= |Log(sets)| && forall i :: 0 <= i < |sets| ==> Loggable(sets[i].0, sets[i].1)
    ensures Replay(ht, image, hash, Log(sets)[..n]) == SetAll(ht, image, hash, sets[..Complete(sets, n)])
    decreases |sets|
  {
    hide Replay, SetTo, Loggable, LogLine;
    if sets == [] {
      PartReplays(ht, image, hash, []);
    } else {
      var (k, v) := sets[0];
      var line, rest := LogLine(k, v), Log(sets[1..]);
      if n < |line| {
        assert Log(sets)[..n] == line[..n];
        LineTail(k, v, n);
        PartReplays(ht, image, hash, line[..n]);
      } else {
        assert Log(sets)[..n] == line + rest[..n - |line|];
        LogLineReplays(ht, image, hash, k, v, rest[..n - |line|]);
        PrefixReplays(SetTo(ht, image, hash, k, v), image, hash, sets[1..], n - |line|);
        assert sets[..Complete(sets, n)][1..] == sets[1..][..Complete(sets, n) - 1];
      }
    }
  }

  /** And the sets of that prefix are logged again. */
  lemma {:induction false} PrefixRelogs(sets: seq<(Str, Str)>, n: nat)
    requires n <= |Log(sets)| && forall i :: 0 <= i < |sets| ==> Loggable(sets[i].0, sets[i].1)
    ensures Relog(Log(sets)[..n]) == Log(sets[..Complete(sets, n)])
    decreases |sets|
  {
    hide Relog, Loggable, LogLine;
    if sets == [] {
      PartRelogs([]);
    } else {
      var (k, v) := sets[0];
      var line, rest := LogLine(k, v), Log(sets[1..]);
      if n < |line| {
        assert Log(sets)[..n] == line[..n];
        LineTail(k, v, n);
        PartRelogs(line[..n]);
      } else {
        assert Log(sets)[..n] == line + rest[..n - |line|];
        LogLineRelogs(k, v, rest[..n - |line|]);
        PrefixRelogs(sets[1..], n - |line|);
        assert sets[..Complete(sets, n)][1..] == sets[1..][..Complete(sets, n) - 1];
      }
    }
  }

  /** The count of a load is the number of completely logged sets. */
  lemma {:induction false} PrefixCounts(sets: seq<(Str, Str)>, n: nat)
    requires n <= |Log(sets)| && forall i :: 0 <= i < |sets| ==> Loggable(sets[i].0, sets[i].1)
    ensures Changes(Log(sets)[..n]) == Complete(sets, n)
    decreases |sets|
  {
    hide Changes, Loggable, LogLine;
    if sets == [] {
      PartCounts([]);
    } else {
      var (k, v) := sets[0];
      var line, rest := LogLine(k, v), Log(sets[1..]);
      if n < |line| {
        assert Log(sets)[..n] == line[..n];
        LineTail(k, v, n);
        PartCounts(line[..n]);
      } else {
        assert Log(sets)[..n] == line + rest[..n - |line|];
        LineCounts(k, v, rest[..n - |line|]);
        PrefixCounts(sets[1..], n - |line|);
      }
    }
  }

  lemma PartCounts(part: Str)
    requires LF !in part
    ensures Changes(part) == 0
  {
    IndexNone(part, LF);
  }

  lemma LineCounts(key: Str, val: Str, rest: Str)
    requires Loggable(key, val)
    ensures Changes(LogLine(key, val) + rest) == 1 + Changes(rest)
  {
    hide IndexOf;
    LineSplits(key, val, rest);
    ChangesOne(LogLine(key, val) + rest);
    assert (key + [EQUALS] + val)[|key|] == EQUALS;
  }

  lemma JoinedLine(key: Str, val: Str, next: Str, data: Str, rest: Str)
    requires LF !in key && LF !in val && |key| + 1 < 255 <= |key| + |val| + 1 && Loggable(next, data)
    ensures var line := key + [EQUALS] + (val[..254 - |key|] + next + [EQUALS] + data);
            LF !in line && LogLine(key, val) + LogLine(next, data) + rest == line + [LF] + rest
  {
    var cut := val[..254 - |key|];
    assert (key + [EQUALS] + val + [LF])[..255] == key + [EQUALS] + cut;
    assert LogLine(key, val) == key + [EQUALS] + cut;
    assert LogLine(next, data) == next + [EQUALS] + data + [LF];
  }

  /** A line that does not fit the buffer of 256 octets is cut off before its end, and the
      next line is taken for its continuation. */
  lemma LongLineSwallows(ht: map<Str, Kv>, image: Option<seq<byte>>, hash: Str -> u32, key: Str, val: Str,
                         next: Str, data: Str, rest: Str)
    requires EQUALS !in key && LF !in key && LF !in val && |key| + 1 < 255 <= |key| + |val| + 1
    requires Loggable(next, data)
    ensures Replay(ht, image, hash, LogLine(key, val) + LogLine(next, data) + rest)
            == Replay(SetTo(ht, image, hash, key, val[..254 - |key|] + next + [EQUALS] + data), image, hash, rest)
  {
    hide IndexOf, SetTo, LogLine;
    var cut := val[..254 - |key|];
    var line := key + [EQUALS] + (cut + next + [EQUALS] + data);
    var text := LogLine(key, val) + LogLine(next, data) + rest;
    JoinedLine(key, val, next, data, rest);
    assert text[|line|] == LF && text[..|line|] == line && text[|line| + 1..] == rest;
    IndexUnique(text, LF, |line|);
    assert line[..|key|] == key && line[|key|] == EQUALS && line[|key| + 1..] == cut + next + [EQUALS] + data;
    IndexUnique(line, EQUALS, |key|);
    ReplayOne(ht, image, hash, text);
  }

  lemma PartRelogs(part: Str)
    requires LF !in part
    ensures Relog(part) == []
  {
    IndexNone(part, LF);
  }

  lemma LogLineRelogs(key: Str, val: Str, rest: Str)
    requires Loggable(key, val)
    ensures Relog(LogLine(key, val) + rest) == LogLine(key, val) + Relog(rest)
  {
    hide IndexOf;
    LineSplits(key, val, rest);
    RelogOne(LogLine(key, val) + rest);
  }

  lemma LineTail(k: Str, v: Str, n: nat)
    requires Loggable(k, v) && n < |LogLine(k, v)|
    ensures LF !in LogLine(k, v)[..n]
  {
    var body := k + [EQUALS] + v;
    assert LogLine(k, v)[..n] == body[..n];
  }

  lemma {:induction false} CompleteAll(sets: seq<(Str, Str)>)
    ensures Complete(sets, |Log(sets)|) == |sets|
  {
    if sets != [] {
      CompleteAll(sets[1..]);
    }
  }

  lemma {:induction false} LogIsCStr(sets: seq<(Str, Str)>)
    requires forall i :: 0 <= i < |sets| ==> Loggable(sets[i].0, sets[i].1)
    ensures IsCStr(Log(sets))
  {
    if sets != [] {
      LogIsCStr(sets[1..]);
    }
  }

  /** Crash recovery: the journal file holds some prefix of the log; loading it leaves
      the table as it was after a prefix of the sets, all of them when all arrived. */
  method Recover(sets: seq<(Str, Str)>, n: nat, ht0: map<Str, Kv>, image: Option<seq<byte>>, hash: Str -> u32)
    returns (ht: map<Str, Kv>, relog: Str, changes: nat)
    requires n <= |Log(sets)| && forall i :: 0 <= i < |sets| ==> Loggable(sets[i].0, sets[i].1)
    ensures ht == SetAll(ht0, image, hash, sets[..Complete(sets, n)])
    ensures n == |Log(sets)| ==> ht == SetAll(ht0, image, hash, sets)
    ensures relog == Log(sets[..Complete(sets, n)]) && changes == Complete(sets, n)
  {
    hide Replay, Relog, SetAll, Complete, CStr, Loggable, Changes;
    PrefixCounts(sets, n);
    PrefixRelogs(sets, n);
    PrefixReplays(ht0, image, hash, sets, n);
    CompleteAll(sets);
    LogIsCStr(sets);
    PrefixCStr(Log(sets), n);
    ht, changes, relog := Load(Log(sets)[..n], ht0, image, hash);
    assert n == |Log(sets)| ==> sets[..Complete(sets, n)] == sets;
  }

  lemma PrefixCStr(s: Str, n: nat)
    requires IsCStr(s) && n <= |s|
    ensures CStr(s[..n]) == s[..n]
  {
    assert IsCStr(s[..n]);
    CStrWhole(s[..n]);
  }
}
