/**
 src/json/js0n.c: the JSON scanner, in its jump-table and its switch version.
 `out` holds the offsets written so far: a start and a length for each element of
 the outermost container.
 */
module Js0n {
  import opened Bytes

  datatype Mode = Struct | Bare | Str | Esc | Utf

  datatype Scanner = Scanner(mode: Mode, remain: int, depth: int, prev: int, out: seq<int>)

  datatype Outcome = Bad | Next(scanner: Scanner)

  datatype Result = Result(code: int, out: seq<int>)

  const QUOTE: byte := 34
  const COMMA: byte := 44
  const MINUS: byte := 45
  const COLON: byte := 58

  predicate Blank(c: byte) { c == TAB || c == SPACE || c == CR || c == LF }

  predicate Opens(c: byte) { c == 91 || c == 123 }

  predicate Closes(c: byte) { c == 93 || c == 125 }

  /** `-`, a digit, or the first letter of true, false, null. */
  predicate BareStart(c: byte) { c == MINUS || 48 <= c <= 57 || c == 116 || c == 102 || c == 110 }

  predicate BareEnd(c: byte) { Blank(c) || c == COMMA || Closes(c) }

  predicate Escapable(c: byte) {
    c == QUOTE || c == BACKSLASH || c == SLASH || c == 98 || c == 102 || c == 110 || c == 114 || c == 116 || c == 117
  }

  /** The PUSH macro. */
  function Push(s: Scanner, at: int): Scanner {
    if s.depth == 1 then s.(prev := at, out := s.out + [at]) else s
  }

  /** The CAP macro. */
  function Cap(s: Scanner, at: int): Scanner {
    if s.depth == 1 then s.(prev := at - s.prev + 1, out := s.out + [at - s.prev + 1]) else s
  }

  function StructStep(s: Scanner, c: byte, at: int): Outcome {
    if Blank(c) || c == COLON || c == COMMA then Next(s)
    else if c == QUOTE then Next(Push(s, at + 1).(mode := Str))
    else if Opens(c) then var t := Push(s, at); Next(t.(depth := t.depth + 1))
    else if Closes(c) then Next(Cap(s.(depth := s.depth - 1), at))
    else if BareStart(c) then Next(Push(s, at).(mode := Bare))
    else Bad
  }

  /** Continuation octets announced by a lead octet; `limit` is the first one taken to
      lead four octets. */
  function Follow(c: byte, limit: int): int {
    if c < 224 then 1 else if c < limit then 2 else 3
  }

  function StringStep(s: Scanner, c: byte, at: int, limit: int): Outcome {
    if c == BACKSLASH then Next(s.(mode := Esc))
    else if c == QUOTE then Next(Cap(s, at - 1).(mode := Struct))
    else if c <= 31 || 127 <= c <= 191 || c >= 248 then Bad
    else if c < 127 then Next(s)
    else Next(s.(mode := Utf, remain := Follow(c, limit)))
  }

  /** One octet. */
  function Step(s: Scanner, c: byte, at: int, limit: int): Outcome {
    match s.mode
    case Struct => StructStep(s, c, at)
    case Bare =>
      if BareEnd(c) then StructStep(Cap(s, at - 1).(mode := Struct), c, at)
      else if 32 <= c <= 126 then Next(s)
      else Bad
    case Str => StringStep(s, c, at, limit)
    case Esc => if Escapable(c) then Next(s.(mode := Str)) else Bad
    case Utf =>
      if c < 128 || c >= 192 then Bad
      else Next(s.(remain := s.remain - 1, mode := if s.remain == 1 then Str else Utf))
  }

  /** The scan from `at` on. */
  function Scan(js: seq<byte>, at: nat, s: Scanner, limit: int): Result
    decreases |js| - at
  {
    if at >= |js| then Result(s.depth, s.out) else
    match Step(s, js[at], at, limit)
    case Bad => Result(1, s.out)
    case Next(t) => Scan(js, at + 1, t, limit)
  }

  const START := Scanner(Struct, 0, 0, 0, [])

  lemma ScanOne(js: seq<byte>, at: nat, s: Scanner, limit: int)
    requires at < |js|
    ensures Scan(js, at, s, limit) == match Step(s, js[at], at, limit)
                                      case Bad => Result(1, s.out)
                                      case Next(t) => Scan(js, at + 1, t, limit)
  {
  }

  lemma ScanEnd(js: seq<byte>, s: Scanner, limit: int)
    ensures Scan(js, |js|, s, limit) == Result(s.depth, s.out)
  {
  }

  // --- the jump-table version ---

  datatype Label = LBad | LLoop | LUp | LDown | LQup | LQdown | LEsc | LUnesc
                 | LBare | LUnbare | LUtf(n: int) | LContinue

  function GoStruct(c: byte): Label {
    if Blank(c) || c == COLON || c == COMMA then LLoop
    else if c == QUOTE then LQup
    else if Opens(c) then LUp
    else if Closes(c) then LDown
    else if BareStart(c) then LBare
    else LBad
  }

  function GoBare(c: byte): Label {
    if BareEnd(c) then LUnbare else if 32 <= c <= 126 then LLoop else LBad
  }

  function GoString(c: byte): Label {
    if c == BACKSLASH then LEsc
    else if c == QUOTE then LQdown
    else if 32 <= c <= 126 then LLoop
    else if 192 <= c <= 223 then LUtf(1)
    else if 224 <= c <= 239 then LUtf(2)
    else if 240 <= c <= 247 then LUtf(3)
    else LBad
  }

  function GoEsc(c: byte): Label {
    if Escapable(c) then LUnesc else LBad
  }

  function GoContinue(c: byte): Label {
    if 128 <= c <= 191 then LContinue else LBad
  }

  function Table(go: Mode, c: byte): Label {
    match go
    case Struct => GoStruct(c)
    case Bare => GoBare(c)
    case Str => GoString(c)
    case Esc => GoEsc(c)
    case Utf => GoContinue(c)
  }

  /** `sdb_js0n` with computed gotos. */
  method JumpScan(js: seq<byte>) returns (r: Result)
    ensures r == Scan(js, 0, START, 240)
  {
    hide Scan, Blank, Opens, Closes, BareStart, Escapable;
    var go, remain, depth, prev, out := Struct, 0, 0, 0, [];
    for cur := 0 to |js|
      invariant Scan(js, cur, Scanner(go, remain, depth, prev, out), 240) == Scan(js, 0, START, 240)
    {
      ghost var s := Scanner(go, remain, depth, prev, out);
      ScanOne(js, cur, s, 240);
      var c := js[cur];
      var target := Table(go, c);
      if target == LUnbare {
        if depth == 1 {
          prev := cur - 1 - prev + 1;
          out := out + [prev];
        }
        go := Struct;
        target := GoStruct(c);
      }
      match target {
        case LBad =>
          assert Step(s, c, cur, 240) == Bad;
          return Result(1, out);
        case LUp =>
          if depth == 1 {
            prev := cur;
            out := out + [prev];
          }
          depth := depth + 1;
        case LDown =>
          depth := depth - 1;
          if depth == 1 {
            prev := cur - prev + 1;
            out := out + [prev];
          }
        case LQup =>
          if depth == 1 {
            prev := cur + 1;
            out := out + [prev];
          }
          go := Str;
        case LQdown =>
          if depth == 1 {
            prev := cur - 1 - prev + 1;
            out := out + [prev];
          }
          go := Struct;
        case LEsc =>
          go := Esc;
        case LUnesc =>
          go := Str;
        case LBare =>
          if depth == 1 {
            prev := cur;
            out := out + [prev];
          }
          go := Bare;
        case LUtf(n) =>
          go := Utf;
          remain := n;
        case LContinue =>
          remain := remain - 1;
          if remain == 0 {
            go := Str;
          }
        case _ =>
      }
      assert Step(s, c, cur, 240) == Next(Scanner(go, remain, depth, prev, out));
    }
    ScanEnd(js, Scanner(go, remain, depth, prev, out), 240);
    return Result(depth, out);
  }

  // --- the switch version ---

  datatype Did = DidDown | DidUp | DidQDown | DidQUp | DidBare | DidUnbare
               | DidEscape | DidUnescape | DidUtf8 | DidUtf8Continue

  function ModeOf(did: Did): Mode {
    match did
    case DidBare => Bare
    case DidEscape => Esc
    case DidUtf8 => Utf
    case DidQUp => Str
    case DidUnescape => Str
    case DidUtf8Continue => Str
    case _ => Struct
  }

  /** `sdb_js0n` without computed gotos. */
  method SwitchScan(js: seq<byte>) returns (r: Result)
    ensures r == Scan(js, 0, START, 239)
  {
    hide Scan, Blank, Opens, Closes, BareStart, Escapable;
    var did, remain, depth, prev, out := DidDown, 0, 0, 0, [];
    for cur := 0 to |js|
      invariant Scan(js, cur, Scanner(ModeOf(did), remain, depth, prev, out), 239) == Scan(js, 0, START, 239)
    {
      var c := js[cur];
      ScanOne(js, cur, Scanner(ModeOf(did), remain, depth, prev, out), 239);
      if did == DidBare {
        if BareEnd(c) {
          did := DidUnbare;
          if depth == 1 {
            prev := cur - 1 - prev + 1;
            out := out + [prev];
          }
        } else if 32 <= c <= 126 {
          continue;
        } else {
          return Result(1, out);
        }
      }
      if did == DidUtf8 {
        if c < 128 || 192 <= c <= 255 {
          return Result(1, out);
        }
        remain := remain - 1;
        if remain == 0 {
          did := DidUtf8Continue;
        }
        continue;
      }
      if did == DidEscape {
        if !Escapable(c) {
          return Result(1, out);
        }
        did := DidUnescape;
        continue;
      }
      if did == DidQUp || did == DidUtf8Continue || did == DidUnescape {
        if c == BACKSLASH {
          did := DidEscape;
        } else if c == QUOTE {
          did := DidQDown;
          if depth == 1 {
            prev := cur - 1 - prev + 1;
            out := out + [prev];
          }
        } else {
          if c <= 31 || 127 <= c <= 191 || 248 <= c <= 255 {
            return Result(1, out);
          }
          if c < 127 {
            continue;
          }
          did := DidUtf8;
          remain := if c < 224 then 1 else if c < 239 then 2 else 3;
        }
        continue;
      }
      if Blank(c) || c == COMMA || c == COLON {
      } else if c == QUOTE {
        if depth == 1 {
          prev := cur + 1;
          out := out + [prev];
        }
        did := DidQUp;
      } else if Opens(c) {
        if depth == 1 {
          prev := cur;
          out := out + [prev];
        }
        depth := depth + 1;
        did := DidUp;
      } else if Closes(c) {
        depth := depth - 1;
        if depth == 1 {
          prev := cur - prev + 1;
          out := out + [prev];
        }
        did := DidDown;
      } else if BareStart(c) {
        did := DidBare;
        if depth == 1 {
          prev := cur;
          out := out + [prev];
        }
      } else {
        return Result(1, out);
      }
    }
    ScanEnd(js, Scanner(ModeOf(did), remain, depth, prev, out), 239);
    return Result(depth, out);
  }

  // --- where the two versions agree ---

  lemma SameWithoutEF(js: seq<byte>)
    requires 239 !in js
    ensures Scan(js, 0, START, 239) == Scan(js, 0, START, 240)
  {
    hide Scan;
    AgreeExactly(js);
  }

  /** The octets after a lead octet 0xEF, when at most two are left: both versions
      expect continuation octets for all of them. */
  lemma ShortTail(js: seq<byte>, n: nat, s: Scanner)
    requires n < |js| <= n + 3 && s.mode == Str && js[n] == 239
    ensures Scan(js, n, s, 239) == Scan(js, n, s, 240)
  {
    hide Scan;
    var a, b := s.(mode := Utf, remain := 2), s.(mode := Utf, remain := 3);
    ScanOne(js, n, s, 240);
    ScanOne(js, n, s, 239);
    ScanEnd(js, a, 240);
    ScanEnd(js, b, 239);
    if n + 1 < |js| {
      ScanOne(js, n + 1, a, 240);
      ScanOne(js, n + 1, b, 239);
      var c, d := a.(remain := 1), b.(remain := 2);
      ScanEnd(js, c, 240);
      ScanEnd(js, d, 239);
      if n + 2 < |js| {
        ScanOne(js, n + 2, c, 240);
        ScanOne(js, n + 2, d, 239);
        ScanEnd(js, c.(mode := Str, remain := 0), 240);
        ScanEnd(js, d.(remain := 1), 239);
      }
    }
  }

  /** Outside a string octet 0xEF ends the scan in both versions. */
  lemma SameStep(s: Scanner, c: byte, at: int)
    requires c != 239 || s.mode != Str
    ensures Step(s, c, at, 239) == Step(s, c, at, 240)
    ensures c == 239 ==> Step(s, c, at, 240) == Bad
  {
  }

  lemma {:induction false} AgreeFrom(js: seq<byte>, at: nat, s: Scanner)
    requires forall i :: at <= i < |js| - 3 ==> js[i] != 239
    ensures Scan(js, at, s, 239) == Scan(js, at, s, 240)
    decreases |js| - at
  {
    hide Step;
    if at < |js| {
      if js[at] == 239 && s.mode == Str {
        ShortTail(js, at, s);
      } else {
        SameStep(s, js[at], at);
        if Step(s, js[at], at, 240).Next? {
          AgreeFrom(js, at + 1, Step(s, js[at], at, 240).scanner);
        }
      }
    }
  }

  /** With three more octets to come, one version or the other rejects the text. */
  lemma LongTail(js: seq<byte>, n: nat, s: Scanner)
    requires n + 3 < |js| && s.mode == Str && js[n] == 239
    ensures Scan(js, n, s, 239).code == 1 || Scan(js, n, s, 240).code == 1
  {
    hide Scan;
    var a, b := s.(mode := Utf, remain := 2), s.(mode := Utf, remain := 3);
    ScanOne(js, n, s, 240);
    ScanOne(js, n, s, 239);
    ScanOne(js, n + 1, a, 240);
    ScanOne(js, n + 1, b, 239);
    ScanOne(js, n + 2, a.(remain := 1), 240);
    ScanOne(js, n + 2, b.(remain := 2), 239);
    ScanOne(js, n + 3, a.(mode := Str, remain := 0), 240);
    ScanOne(js, n + 3, b.(remain := 1), 239);
  }

  lemma {:induction false} RejectFrom(js: seq<byte>, at: nat, s: Scanner, i: nat)
    requires at <= i < |js| - 3 && js[i] == 239
    ensures Scan(js, at, s, 239).code == 1 || Scan(js, at, s, 240).code == 1
    decreases |js| - at
  {
    hide Step;
    if js[at] == 239 && s.mode == Str {
      LongTail(js, at, s);
    } else {
      SameStep(s, js[at], at);
      if Step(s, js[at], at, 240).Next? {
        RejectFrom(js, at + 1, Step(s, js[at], at, 240).scanner, i);
      }
    }
  }

  /** The exact condition. Without octet 0xEF before the last three octets the versions
      agree on every input. They agree only then on every text for which either returns
      anything but 1, the code for bad text: all texts that either accepts, and all that
      end inside nested containers. */
  lemma AgreeExactly(js: seq<byte>)
    ensures (forall i :: 0 <= i < |js| - 3 ==> js[i] != 239) ==> Scan(js, 0, START, 239) == Scan(js, 0, START, 240)
    ensures Scan(js, 0, START, 239).code != 1 || Scan(js, 0, START, 240).code != 1 ==>
              (Scan(js, 0, START, 239) == Scan(js, 0, START, 240) <==> forall i :: 0 <= i < |js| - 3 ==> js[i] != 239)
  {
    hide Scan;
    if forall i :: 0 <= i < |js| - 3 ==> js[i] != 239 {
      AgreeFrom(js, 0, START);
    } else {
      var i :| 0 <= i < |js| - 3 && js[i] == 239;
      RejectFrom(js, 0, START, i);
    }
  }

  /** The state after all of `u`. */
  function After(u: seq<byte>, limit: int): Outcome {
    if u == [] then Next(START) else
    match After(u[..|u| - 1], limit)
    case Bad => Bad
    case Next(s) => Step(s, u[|u| - 1], |u| - 1, limit)
  }

  lemma {:induction false} ScanAfter(u: seq<byte>, v: seq<byte>, limit: int)
    requires After(u, limit).Next?
    ensures Scan(u + v, 0, START, limit) == Scan(u + v, |u|, After(u, limit).scanner, limit)
  {
    if u != [] {
      var w := u[..|u| - 1];
      assert u + v == w + ([u[|u| - 1]] + v);
      ScanAfter(w, [u[|u| - 1]] + v, limit);
      ScanOne(u + v, |w|, After(w, limit).scanner, limit);
    }
  }

  lemma {:induction false} AfterSame(u: seq<byte>)
    requires 239 !in u
    ensures After(u, 239) == After(u, 240)
  {
    if u != [] {
      AfterSame(u[..|u| - 1]);
    }
  }

  /** Wherever a string can be in progress, a three-octet sequence led by 0xEF and the
      closing quote tell the versions apart. */
  lemma DifferOnEF(u: seq<byte>)
    requires 239 !in u && After(u, 240).Next? && After(u, 240).scanner.mode == Str
    ensures var js := u + [239, 128, 128, QUOTE];
            Scan(js, 0, START, 239) != Scan(js, 0, START, 240) && Scan(js, 0, START, 239).code == 1
  {
    hide After, Scan;
    var v: seq<byte> := [239, 128, 128, QUOTE];
    var js, s, n := u + v, After(u, 240).scanner, |u|;
    AfterSame(u);
    ScanAfter(u, v, 239);
    ScanAfter(u, v, 240);
    assert js[n] == 239 && js[n + 1] == 128 && js[n + 2] == 128 && js[n + 3] == QUOTE;
    LeadEF(js, n, s);
  }

  lemma LeadEF(js: seq<byte>, n: nat, s: Scanner)
    requires |js| == n + 4 && s.mode == Str && js[n] == 239 && js[n + 1] == 128 && js[n + 2] == 128
             && js[n + 3] == QUOTE
    ensures Scan(js, n, s, 239) == Result(1, s.out)
    ensures var t := Cap(s, n + 2); Scan(js, n, s, 240) == Result(t.depth, t.out)
  {
    hide Scan;
    ScanOne(js, n, s, 239);
    ScanOne(js, n + 1, s.(mode := Utf, remain := 3), 239);
    ScanOne(js, n + 2, s.(mode := Utf, remain := 2), 239);
    ScanOne(js, n + 3, s.(mode := Utf, remain := 1), 239);
    ScanOne(js, n, s, 240);
    ScanOne(js, n + 1, s.(mode := Utf, remain := 2), 240);
    ScanOne(js, n + 2, s.(mode := Utf, remain := 1), 240);
    var r := s.(mode := Str, remain := 0);
    ScanOne(js, n + 3, r, 240);
    ScanEnd(js, Cap(r, n + 2).(mode := Struct), 240);
  }

  // --- what the offsets delimit ---

  ghost predicate NoBareEnd(js: seq<byte>, lo: int, hi: int) {
    forall k :: lo <= k < hi && 0 <= k < |js| ==> !BareEnd(js[k])
  }

  /** The span is the inside of a string, a whole container or a whole bare word. */
  ghost predicate Element(js: seq<byte>, a: int, n: int) {
    && 0 <= a && 0 <= n && a + n <= |js|
    && (|| (a > 0 && a + n < |js| && js[a - 1] == QUOTE && js[a + n] == QUOTE)
        || (n >= 2 && Opens(js[a]) && Closes(js[a + n - 1]))
        || (n >= 1 && a + n < |js| && BareStart(js[a]) && NoBareEnd(js, a, a + n) && BareEnd(js[a + n])))
  }

  /** `out` is a list of complete (start, length) pairs, in order and disjoint, that
      end by `hi`; each delimits an element. */
  ghost predicate Pairs(js: seq<byte>, out: seq<int>, hi: int) {
    out == [] || (|out| >= 2 && var a, n := out[|out| - 2], out[|out| - 1];
                  Element(js, a, n) && a + n <= hi && Pairs(js, out[..|out| - 2], a))
  }

  lemma PairsUpTo(js: seq<byte>, out: seq<int>, hi: int, top: int)
    requires Pairs(js, out, hi) && hi <= top
    ensures Pairs(js, out, top)
  {
  }

  ghost predicate Inside(s: Scanner) {
    s.depth >= 2 || (s.depth == 1 && s.mode != Struct)
  }

  /** The start of the element in progress. */
  ghost predicate Begun(js: seq<byte>, s: Scanner, at: int) {
    && 0 <= s.prev <= at <= |js|
    && (s.depth >= 2 ==> s.prev < at && Opens(js[s.prev]))
    && (s.depth == 1 && s.mode == Bare ==> s.prev < at && BareStart(js[s.prev]) && NoBareEnd(js, s.prev, at))
    && (s.depth == 1 && s.mode != Bare && s.mode != Struct ==> s.prev > 0 && js[s.prev - 1] == QUOTE)
  }

  ghost predicate Sound(js: seq<byte>, s: Scanner, at: int) {
    && |s.out| <= at
    && if Inside(s)
       then |s.out| > 0 && s.out[|s.out| - 1] == s.prev && Begun(js, s, at) && Pairs(js, s.out[..|s.out| - 1], s.prev)
       else Pairs(js, s.out, at)
  }

  /** Ending the element in progress makes a complete pair. */
  lemma CapSound(js: seq<byte>, s: Scanner, n: int, hi: int)
    requires |s.out| > 0 && s.out[|s.out| - 1] == s.prev && Pairs(js, s.out[..|s.out| - 1], s.prev)
    requires Element(js, s.prev, n) && s.prev + n <= hi
    ensures Pairs(js, s.out + [n], hi)
  {
    var out := s.out + [n];
    assert out[..|out| - 2] == s.out[..|s.out| - 1];
  }

  lemma PushSound(out: seq<int>, a: int)
    ensures (out + [a])[..|out|] == out
  {
  }

  lemma StepSound(js: seq<byte>, s: Scanner, at: nat, limit: int)
    requires at < |js| && Sound(js, s, at) && Step(s, js[at], at, limit).Next?
    ensures Sound(js, Step(s, js[at], at, limit).scanner, at + 1)
  {
    if s.mode == Struct {
      StructSound(js, s, at);
    } else if s.mode == Bare {
      BareSound(js, s, at);
    } else {
      StringSound(js, s, at, limit);
    }
  }

  lemma StructSound(js: seq<byte>, s: Scanner, at: nat)
    requires at < |js| && s.mode == Struct && Sound(js, s, at) && StructStep(s, js[at], at).Next?
    ensures Sound(js, StructStep(s, js[at], at).scanner, at + 1)
  {
    hide Pairs, NoBareEnd, Blank;
    var c := js[at];
    if !Inside(s) {
      PairsUpTo(js, s.out, at, at + 1);
    }
    if s.depth == 1 && (c == QUOTE || Opens(c) || BareStart(c)) {
      PushSound(s.out, at);
      PushSound(s.out, at + 1);
      BareFirst(js, at);
    } else if Closes(c) && s.depth == 2 {
      assert Element(js, s.prev, at - s.prev + 1);
      CapSound(js, s, at - s.prev + 1, at + 1);
    }
  }

  lemma BareFirst(js: seq<byte>, at: nat)
    requires at < |js|
    ensures BareStart(js[at]) ==> NoBareEnd(js, at, at + 1)
  {
  }

  lemma BareSound(js: seq<byte>, s: Scanner, at: nat)
    requires at < |js| && s.mode == Bare && Sound(js, s, at) && Step(s, js[at], at, 0).Next?
    ensures Sound(js, Step(s, js[at], at, 0).scanner, at + 1)
  {
    hide Pairs, Blank, BareStart;
    var c := js[at];
    if !Inside(s) {
      PairsUpTo(js, s.out, at, at + 1);
    }
    if BareEnd(c) && s.depth == 1 {
      assert Element(js, s.prev, at - s.prev);
      CapSound(js, s, at - s.prev, at + 1);
      CapSound(js, s, at - s.prev, at);
    } else if BareEnd(c) {
      StructSound(js, s.(mode := Struct), at);
    }
  }

  lemma StringSound(js: seq<byte>, s: Scanner, at: nat, limit: int)
    requires at < |js| && s.mode != Struct && s.mode != Bare && Sound(js, s, at) && Step(s, js[at], at, limit).Next?
    ensures Sound(js, Step(s, js[at], at, limit).scanner, at + 1)
  {
    hide Pairs, Blank, Opens, BareStart, NoBareEnd, Escapable;
    var c := js[at];
    if !Inside(s) {
      PairsUpTo(js, s.out, at, at + 1);
    }
    if s.mode == Str && c == QUOTE && s.depth == 1 {
      assert Element(js, s.prev, at - s.prev);
      CapSound(js, s, at - s.prev, at + 1);
    }
  }

  lemma {:induction false} ScanSound(js: seq<byte>, at: nat, s: Scanner, limit: int)
    requires at <= |js| && Sound(js, s, at)
    ensures |Scan(js, at, s, limit).out| <= |js|
    ensures Scan(js, at, s, limit).code <= 0 ==> Pairs(js, Scan(js, at, s, limit).out, |js|)
    decreases |js| - at
  {
    hide Step, Pairs;
    if at < |js| && Step(s, js[at], at, limit).Next? {
      StepSound(js, s, at, limit);
      ScanSound(js, at + 1, Step(s, js[at], at, limit).scanner, limit);
    }
  }

  /** For every input, in both versions: no more offsets than octets, and a result of
      zero or less means complete, ordered, disjoint pairs that delimit elements. */
  lemma OffsetsDelimit(js: seq<byte>, limit: int)
    ensures |Scan(js, 0, START, limit).out| <= |js|
    ensures Scan(js, 0, START, limit).code <= 0 ==> Pairs(js, Scan(js, 0, START, limit).out, |js|)
  {
    ScanSound(js, 0, START, limit);
  }
}
