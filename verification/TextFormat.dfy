/**
 src/text.c: the plain-text format. What a dump says line by line, how a reader
 splits it up again, and that reading a dump rebuilds the namespace tree.
 */
module TextFormat {
  import opened Bytes
  import opened DiskWalk

  /** A namespace: its entries in iteration order, and its sub-namespaces. */
  datatype Tree = Tree(entries: seq<Pair>, kids: seq<Kid>)
  datatype Pair = Pair(key: Str, val: Str)
  datatype Kid = Kid(name: Str, node: Tree)

  const EMPTY := Tree([], [])

  /** What a line of the file says. */
  datatype Event = Path(names: seq<Str>) | Entry(key: Str, val: Str)

  // --- writing ---

  /** `escape_loop` on one character; `ch` is escaped as well unless it is 0. */
  function EscapeChar(c: byte, ch: byte): (r: Str)
    ensures 1 <= |r| <= 2
  {
    if c == BACKSLASH then [BACKSLASH, BACKSLASH]
    else if c == CR then [BACKSLASH, 114]
    else if c == LF then [BACKSLASH, 110]
    else if ch != 0 && c == ch then [BACKSLASH, ch]
    else [c]
  }

  function Escape(s: Str, ch: byte): Str {
    if s == [] then [] else Escape(s[..|s| - 1], ch) + EscapeChar(s[|s| - 1], ch)
  }

  /** `write_path` without the leading slash. */
  function PathText(path: seq<Str>): Str {
    if path == [] then []
    else if |path| == 1 then Escape(path[0], SLASH)
    else PathText(path[..|path| - 1]) + [SLASH] + Escape(path[|path| - 1], SLASH)
  }

  function KeyText(k: Str): Str {
    (if k != [] && k[0] == SLASH then [BACKSLASH] else []) + Escape(k, EQUALS)
  }

  function EntryText(e: Pair): Str {
    KeyText(e.key) + [EQUALS] + Escape(e.val, 0) + [LF]
  }

  function EntriesText(es: seq<Pair>): Str {
    if es == [] then [] else EntriesText(es[..|es| - 1]) + EntryText(es[|es| - 1])
  }

  /** `text_save`. */
  function TreeText(t: Tree, path: seq<Str>): Str
    decreases t, 1
  {
    [SLASH] + PathText(path) + [LF] + EntriesText(t.entries) + KidsText(t, |t.kids|, path)
  }

  function KidsText(t: Tree, n: nat, path: seq<Str>): Str
    requires n <= |t.kids|
    decreases t, 0, n
  {
    if n == 0 then [] else
    KidsText(t, n - 1, path) + [LF] + TreeText(t.kids[n - 1].node, path + [t.kids[n - 1].name])
  }

  function EntryEvents(es: seq<Pair>): seq<Event> {
    if es == [] then [] else EntryEvents(es[..|es| - 1]) + [Entry(es[|es| - 1].key, es[|es| - 1].val)]
  }

  /** The events a dump stands for. */
  function TreeEvents(t: Tree, path: seq<Str>): seq<Event>
    decreases t, 1
  {
    [Path(path)] + EntryEvents(t.entries) + KidsEvents(t, |t.kids|, path)
  }

  function KidsEvents(t: Tree, n: nat, path: seq<Str>): seq<Event>
    requires n <= |t.kids|
    decreases t, 0, n
  {
    if n == 0 then [] else
    KidsEvents(t, n - 1, path) + TreeEvents(t.kids[n - 1].node, path + [t.kids[n - 1].name])
  }

  // --- reading ---

  datatype Phase = Newline | InPath | InKey | InValue

  /** What has been read of the current line: finished tokens and the one in progress,
      both unescaped. */
  datatype Lexer = Lexer(phase: Phase, done: seq<Str>, cur: Str, escaped: bool)

  const FRESH := Lexer(Newline, [], [], false)

  /** `unescape_raw_char`. */
  function Unescaped(c: byte): byte {
    if c == 115 then SPACE else if c == 110 then LF else if c == 114 then CR else if c == 116 then TAB else c
  }

  /** `load_process_line`: entries with an empty side are skipped. */
  function LineEvents(x: Lexer): seq<Event> {
    match x.phase
    case InPath => [Path(Names(x.done + [x.cur]))]
    case InValue =>
      if x.done == [] || CStr(x.done[0]) == [] || CStr(x.cur) == [] then []
      else [Entry(CStr(x.done[0]), CStr(x.cur))]
    case _ => []
  }

  /** Tokens as C strings, empty ones skipped. */
  function Names(ts: seq<Str>): seq<Str> {
    if ts == [] then [] else
    Names(ts[..|ts| - 1]) + if CStr(ts[|ts| - 1]) == [] then [] else [CStr(ts[|ts| - 1])]
  }

  predicate Breaks(c: byte) { c == LF || c == CR }

  /** One character inside a line. */
  function Feed(x: Lexer, c: byte): Lexer {
    if x.escaped then x.(cur := x.cur + [Unescaped(c)], escaped := false)
    else if c == BACKSLASH then x.(escaped := true)
    else if (x.phase == InPath && c == SLASH) then x.(done := x.done + [x.cur], cur := [])
    else if (x.phase == InKey && c == EQUALS) then x.(phase := InValue, done := x.done + [x.cur], cur := [])
    else x.(cur := x.cur + [c])
  }

  /** `load_process_single_char`. */
  function Advance(x: Lexer, c: byte): Lexer {
    if Breaks(c) then FRESH
    else if x.phase == Newline then (if c == SLASH then FRESH.(phase := InPath) else Feed(FRESH.(phase := InKey), c))
    else Feed(x, c)
  }

  function Emit(x: Lexer, c: byte): seq<Event> {
    if Breaks(c) then LineEvents(x) else []
  }

  /** Lexer state and events after a text. */
  function LexAfter(x: Lexer, s: Str): Lexer {
    if s == [] then x else Advance(LexAfter(x, s[..|s| - 1]), s[|s| - 1])
  }

  function EventsOf(x: Lexer, s: Str): seq<Event> {
    if s == [] then [] else
    EventsOf(x, s[..|s| - 1]) + Emit(LexAfter(x, s[..|s| - 1]), s[|s| - 1])
  }

  /** `sdb_text_load_buf`: a last line without line break counts too. */
  function Decode(s: Str): seq<Event> {
    EventsOf(FRESH, s) + LineEvents(LexAfter(FRESH, s))
  }

  lemma {:induction false} LexConcat(x: Lexer, a: Str, b: Str)
    ensures LexAfter(x, a + b) == LexAfter(LexAfter(x, a), b)
    ensures EventsOf(x, a + b) == EventsOf(x, a) + EventsOf(LexAfter(x, a), b)
  {
    if b == [] {
      assert a + b == a;
    } else {
      var c := b[..|b| - 1];
      assert (a + b)[..|a + b| - 1] == a + c && (a + b)[|a + b| - 1] == b[|b| - 1];
      LexConcat(x, a, c);
      var y := LexAfter(x, a);
      Assoc(EventsOf(x, a), EventsOf(y, c), Emit(LexAfter(y, c), b[|b| - 1]));
    }
  }

  lemma LexOne(x: Lexer, c: byte)
    ensures LexAfter(x, [c]) == Advance(x, c) && EventsOf(x, [c]) == Emit(x, c)
  {
    assert [c][..0] == [];
    assert LexAfter(x, []) == x && EventsOf(x, []) == [];
  }

  /** A line break character never comes out of the writer inside a token, and the
      character that would end the token comes out escaped. */
  predicate Guards(phase: Phase, ch: byte) {
    (phase == InPath && ch == SLASH) || (phase == InKey && ch == EQUALS) || (phase == InValue && ch == 0)
  }

  lemma EscapeCharRead(x: Lexer, c: byte, ch: byte)
    requires Guards(x.phase, ch) && !x.escaped
    ensures LexAfter(x, EscapeChar(c, ch)) == x.(cur := x.cur + [c]) && EventsOf(x, EscapeChar(c, ch)) == []
  {
    hide LexAfter, EventsOf, LineEvents;
    var e := EscapeChar(c, ch);
    LexOne(x, c);
    LexTwo(x, BACKSLASH, e[|e| - 1]);
  }

  lemma LexTwo(x: Lexer, a: byte, b: byte)
    ensures LexAfter(x, [a, b]) == Advance(Advance(x, a), b)
    ensures EventsOf(x, [a, b]) == Emit(x, a) + Emit(Advance(x, a), b)
  {
    hide Advance, Emit;
    LexOne(x, a);
    LexConcat(x, [a], [b]);
    LexOne(Advance(x, a), b);
    assert [a, b] == [a] + [b];
  }

  lemma LexNone(x: Lexer)
    ensures LexAfter(x, []) == x && EventsOf(x, []) == []
  {
  }

  /** Unescaping undoes escaping, in each kind of token. */
  lemma {:induction false} EscapeRead(x: Lexer, s: Str, ch: byte)
    requires Guards(x.phase, ch) && !x.escaped
    ensures LexAfter(x, Escape(s, ch)) == x.(cur := x.cur + s) && EventsOf(x, Escape(s, ch)) == []
  {
    hide LexAfter, EventsOf, Advance, Emit, EscapeChar;
    if s == [] {
      LexNone(x);
      assert x.cur + s == x.cur;
    } else {
      var r, c := s[..|s| - 1], s[|s| - 1];
      EscapeRead(x, r, ch);
      var y := x.(cur := x.cur + r);
      EscapeCharRead(y, c, ch);
      LexConcat(x, Escape(r, ch), EscapeChar(c, ch));
      assert x.cur + r + [c] == x.cur + s;
    }
  }

  // --- a dump reads back as its events ---

  ghost predicate Reads(x: Lexer, s: Str, y: Lexer, es: seq<Event>) {
    LexAfter(x, s) == y && EventsOf(x, s) == es
  }

  lemma ReadsSeq(x: Lexer, a: Str, y: Lexer, es: seq<Event>, b: Str, z: Lexer, fs: seq<Event>)
    requires Reads(x, a, y, es) && Reads(y, b, z, fs)
    ensures Reads(x, a + b, z, es + fs)
  {
    LexConcat(x, a, b);
  }

  predicate NameOk(n: Str) { n != [] && IsCStr(n) }

  predicate PairOk(e: Pair) { NameOk(e.key) && NameOk(e.val) && |e.key| < KSZ && |e.val| < VSZ }

  ghost predicate PathOk(path: seq<Str>) { forall i :: 0 <= i < |path| ==> NameOk(path[i]) }

  lemma {:induction false} NamesWhole(ts: seq<Str>)
    requires PathOk(ts)
    ensures Names(ts) == ts
  {
    hide CStr;
    if ts != [] {
      NamesWhole(ts[..|ts| - 1]);
      CStrWhole(ts[|ts| - 1]);
    }
  }

  const PATH0 := Lexer(InPath, [], [], false)
  const KEY0 := Lexer(InKey, [], [], false)

  lemma {:induction false} PathRead(path: seq<Str>)
    requires path != []
    ensures Reads(PATH0, PathText(path), Lexer(InPath, path[..|path| - 1], path[|path| - 1], false), [])
  {
    hide LexAfter, EventsOf, Escape;
    var n := |path| - 1;
    if n == 0 {
      EscapeRead(PATH0, path[0], SLASH);
    } else {
      PathRead(path[..n]);
      assert path[..n][..n - 1] == path[..n - 1] && path[..n - 1] + [path[n - 1]] == path[..n];
      NextNameRead(PathText(path[..n]), path[..n - 1], path[n - 1], path[n]);
    }
  }

  /** A slash and one more name. */
  lemma NextNameRead(text: Str, done: seq<Str>, cur: Str, name: Str)
    requires Reads(PATH0, text, Lexer(InPath, done, cur, false), [])
    ensures Reads(PATH0, text + [SLASH] + Escape(name, SLASH), Lexer(InPath, done + [cur], name, false), [])
  {
    hide LexAfter, EventsOf, Escape;
    var x := Lexer(InPath, done, cur, false);
    var y := Lexer(InPath, done + [cur], [], false);
    LexOne(x, SLASH);
    ReadsSeq(PATH0, text, x, [], [SLASH], y, []);
    EscapeRead(y, name, SLASH);
    ReadsSeq(PATH0, text + [SLASH], y, [], Escape(name, SLASH), y.(cur := name), []);
  }

  /** A path line. */
  lemma PathLineRead(path: seq<Str>)
    requires PathOk(path)
    ensures Reads(FRESH, [SLASH] + PathText(path) + [LF], FRESH, [Path(path)])
  {
    hide LexAfter, EventsOf, Names, PathText;
    LexOne(FRESH, SLASH);
    var n := |path| - 1;
    var y := if path == [] then PATH0 else Lexer(InPath, path[..n], path[n], false);
    if path == [] {
      PathEmpty();
    } else {
      PathRead(path);
      NamesWhole(path);
      assert path[..n] + [path[n]] == path;
    }
    assert y.done + [y.cur] == if path == [] then [[]] else path;
    ReadsSeq(FRESH, [SLASH], PATH0, [], PathText(path), y, []);
    LexOne(y, LF);
    ReadsSeq(FRESH, [SLASH] + PathText(path), y, [], [LF], FRESH, [Path(path)]);
  }

  lemma PathEmpty()
    ensures Reads(PATH0, PathText([]), PATH0, []) && Names([[]]) == []
  {
    var ts: seq<Str> := [[]];
    assert ts[..0] == [] && CStr(ts[0]) == [];
    assert Names(ts) == Names([]) + [];
  }

  lemma {:induction false} EscapeCons(c: byte, s: Str, ch: byte)
    ensures Escape([c] + s, ch) == EscapeChar(c, ch) + Escape(s, ch)
  {
    hide EscapeChar, Escape;
    EscapeNone(ch);
    if s == [] {
      EscapeSnoc([], c, ch);
      assert [c] + s == [] + [c];
    } else {
      var n := |s| - 1;
      EscapeCons(c, s[..n], ch);
      EscapeSnoc(s[..n], s[n], ch);
      EscapeSnoc([c] + s[..n], s[n], ch);
      assert s[..n] + [s[n]] == s && [c] + s[..n] + [s[n]] == [c] + s;
      Assoc(EscapeChar(c, ch), Escape(s[..n], ch), EscapeChar(s[n], ch));
    }
  }

  lemma EscapeNone(ch: byte)
    ensures Escape([], ch) == []
  {
  }

  lemma EscapeSnoc(s: Str, c: byte, ch: byte)
    ensures Escape(s + [c], ch) == Escape(s, ch) + EscapeChar(c, ch)
  {
    hide EscapeChar;
    assert (s + [c])[..|s|] == s;
  }

  lemma KeyRead(k: Str)
    requires k != []
    ensures Reads(KEY0, KeyText(k), KEY0.(cur := k), [])
    ensures KeyText(k) != [] && KeyText(k)[0] != SLASH && !Breaks(KeyText(k)[0])
  {
    hide LexAfter, EventsOf, Escape;
    var r := k[1..];
    assert k == [k[0]] + r;
    EscapeCons(k[0], r, EQUALS);
    if k[0] == SLASH {
      var t := [BACKSLASH, SLASH];
      LexTwo(KEY0, BACKSLASH, SLASH);
      EscapeRead(KEY0.(cur := [SLASH]), r, EQUALS);
      ReadsSeq(KEY0, t, KEY0.(cur := [SLASH]), [], Escape(r, EQUALS), KEY0.(cur := k), []);
      assert KeyText(k) == t + Escape(r, EQUALS);
    } else {
      EscapeRead(KEY0, k, EQUALS);
      assert KeyText(k) == Escape(k, EQUALS);
    }
  }

  /** At the start of a line anything but a slash begins a key. */
  lemma KeyStarts(s: Str, y: Lexer, es: seq<Event>)
    requires s != [] && s[0] != SLASH && !Breaks(s[0]) && Reads(KEY0, s, y, es)
    ensures Reads(FRESH, s, y, es)
  {
    hide LexAfter, EventsOf;
    assert s == [s[0]] + s[1..];
    LexConcat(FRESH, [s[0]], s[1..]);
    LexConcat(KEY0, [s[0]], s[1..]);
    LexOne(FRESH, s[0]);
    LexOne(KEY0, s[0]);
  }

  lemma EntryRead(e: Pair)
    requires PairOk(e)
    ensures Reads(FRESH, EntryText(e), FRESH, [Entry(e.key, e.val)])
  {
    hide LexAfter, EventsOf, Escape, KeyText;
    var x, y := KEY0.(cur := e.key), Lexer(InValue, [e.key], [], false);
    KeyRead(e.key);
    KeyStarts(KeyText(e.key), x, []);
    LexOne(x, EQUALS);
    ReadsSeq(FRESH, KeyText(e.key), x, [], [EQUALS], y, []);
    EscapeRead(y, e.val, 0);
    var z := y.(cur := e.val);
    assert y.cur + e.val == e.val;
    ReadsSeq(FRESH, KeyText(e.key) + [EQUALS], y, [], Escape(e.val, 0), z, []);
    LexOne(z, LF);
    CStrWhole(e.key);
    CStrWhole(e.val);
    ReadsSeq(FRESH, KeyText(e.key) + [EQUALS] + Escape(e.val, 0), z, [], [LF], FRESH, [Entry(e.key, e.val)]);
  }

  lemma {:induction false} EntriesRead(es: seq<Pair>)
    requires forall i :: 0 <= i < |es| ==> PairOk(es[i])
    ensures Reads(FRESH, EntriesText(es), FRESH, EntryEvents(es))
  {
    hide EntryText;
    if es != [] {
      EntriesRead(es[..|es| - 1]);
      EntryRead(es[|es| - 1]);
      ReadsSeq(FRESH, EntriesText(es[..|es| - 1]), FRESH, EntryEvents(es[..|es| - 1]), EntryText(es[|es| - 1]), FRESH,
               [Entry(es[|es| - 1].key, es[|es| - 1].val)]);
    }
  }

  /** Names, keys and values are non-empty C strings of the allowed sizes, keys are
      distinct, and sibling names have distinct hashes. */
  ghost predicate TreeOk(t: Tree, hash: Str -> u32) {
    && (forall i :: 0 <= i < |t.entries| ==> PairOk(t.entries[i]))
    && (forall i, j :: 0 <= i < j < |t.entries| ==> t.entries[i].key != t.entries[j].key)
    && (forall i :: 0 <= i < |t.kids| ==> NameOk(t.kids[i].name) && TreeOk(t.kids[i].node, hash))
    && (forall i, j :: 0 <= i < j < |t.kids| ==> hash(t.kids[i].name) != hash(t.kids[j].name))
  }

  lemma {:induction false} TreeRead(t: Tree, path: seq<Str>, hash: Str -> u32)
    requires TreeOk(t, hash) && PathOk(path)
    ensures Reads(FRESH, TreeText(t, path), FRESH, TreeEvents(t, path))
    decreases t, 1
  {
    hide Reads, PathText, EntriesText, EntryEvents, PathOk;
    PathLineRead(path);
    EntriesRead(t.entries);
    KidsRead(t, |t.kids|, path, hash);
    var head := [SLASH] + PathText(path) + [LF];
    ReadsSeq(FRESH, head, FRESH, [Path(path)], EntriesText(t.entries), FRESH, EntryEvents(t.entries));
    ReadsSeq(FRESH, head + EntriesText(t.entries), FRESH, [Path(path)] + EntryEvents(t.entries),
             KidsText(t, |t.kids|, path), FRESH, KidsEvents(t, |t.kids|, path));
  }

  lemma {:induction false} KidsRead(t: Tree, n: nat, path: seq<Str>, hash: Str -> u32)
    requires n <= |t.kids| && TreeOk(t, hash) && PathOk(path)
    ensures Reads(FRESH, KidsText(t, n, path), FRESH, KidsEvents(t, n, path))
    decreases t, 0, n
  {
    hide Reads, TreeOk, PathOk;
    if n == 0 {
      ReadsNothing();
    } else {
      var kid := t.kids[n - 1];
      KidsRead(t, n - 1, path, hash);
      KidPath(t, n - 1, path, hash);
      TreeRead(kid.node, path + [kid.name], hash);
      NextTreeRead(KidsText(t, n - 1, path), KidsEvents(t, n - 1, path), TreeText(kid.node, path + [kid.name]),
                   TreeEvents(kid.node, path + [kid.name]));
    }
  }

  lemma KidPath(t: Tree, i: nat, path: seq<Str>, hash: Str -> u32)
    requires TreeOk(t, hash) && PathOk(path) && i < |t.kids|
    ensures TreeOk(t.kids[i].node, hash) && PathOk(path + [t.kids[i].name])
  {
  }

  /** An empty line and the dump of one more namespace. */
  lemma NextTreeRead(a: Str, es: seq<Event>, b: Str, fs: seq<Event>)
    requires Reads(FRESH, a, FRESH, es) && Reads(FRESH, b, FRESH, fs)
    ensures Reads(FRESH, a + [LF] + b, FRESH, es + fs)
  {
    hide Reads;
    BlankRead();
    ReadsSeq(FRESH, a, FRESH, es, [LF], FRESH, []);
    assert es + [] == es;
    ReadsSeq(FRESH, a + [LF], FRESH, es, b, FRESH, fs);
  }

  lemma ReadsNothing()
    ensures Reads(FRESH, [], FRESH, [])
  {
  }

  lemma BlankRead()
    ensures Reads(FRESH, [LF], FRESH, [])
  {
    LexOne(FRESH, LF);
  }

  /** Reading a dump gives the events it was written for. */
  lemma DumpDecodes(t: Tree, hash: Str -> u32)
    requires TreeOk(t, hash)
    ensures Decode(TreeText(t, [])) == TreeEvents(t, [])
  {
    hide TreeText, TreeEvents;
    TreeRead(t, [], hash);
  }

  // --- the format in octets ---

  /** Backslash, CR and LF are always escaped, and one more character where it would end
      the token; everything else stands for itself. */
  lemma EscapeIs(c: byte, ch: byte)
    ensures EscapeChar(c, ch) == if c == 92 then [92, 92] else if c == 13 then [92, 114] else if c == 10 then [92, 110]
                                 else if c == ch && ch != 0 then [92, c] else [c]
  {
  }

  /** After a backslash n, r, t and s stand for LF, CR, TAB and a blank, all else for itself;
      lines end at CR as well as LF. */
  lemma UnescapeIs(c: byte)
    ensures Unescaped(c) == match c case 110 => 10 case 114 => 13 case 116 => 9 case 115 => 32 case _ => c
    ensures Breaks(c) <==> c in {10, 13}
  {
  }

  /** The four kinds of entry lines: `k=v`, a key with a leading slash, a backslash and a
      line break, and equals signs on both sides. */
  lemma EntryLines()
    ensures EntryText(Pair([107], [118])) == [107, 61, 118, 10]
    ensures EntryText(Pair([47, 115], [118])) == [92, 47, 115, 61, 118, 10]
    ensures EntryText(Pair([92], [10])) == [92, 92, 61, 92, 110, 10]
    ensures EntryText(Pair([61], [61])) == [92, 61, 61, 61, 10]
  {
    hide EntryText;
    OneLetter(107, 118);
    OneLetter(92, 10);
    OneLetter(61, 61);
    SlashedKey();
  }

  lemma OneLetter(k: byte, v: byte)
    requires k != 47
    ensures EntryText(Pair([k], [v])) == EscapeChar(k, 61) + [61] + EscapeChar(v, 0) + [10]
  {
    hide EscapeChar, Escape;
    EscapeOne(k, 61);
    EscapeOne(v, 0);
    assert [] + EscapeChar(k, 61) == EscapeChar(k, 61);
  }

  lemma SlashedKey()
    ensures EntryText(Pair([47, 115], [118])) == [92, 47, 115, 61, 118, 10]
  {
    hide Escape;
    EscapeOne(47, 61);
    EscapeSnoc([47], 115, 61);
    EscapeOne(118, 0);
    assert [47] + [115] == [47, 115];
  }

  lemma EscapeOne(c: byte, ch: byte)
    ensures Escape([c], ch) == EscapeChar(c, ch)
  {
    EscapeNone(ch);
    EscapeSnoc([], c, ch);
    assert [] + [c] == [c];
  }

  /** A whole dump: the root with one entry, and a namespace `n` with one entry. */
  lemma SmallDump()
    ensures var t := Tree([Pair([107], [118])], [Kid([110], Tree([Pair([107], [118])], []))]);
            TreeText(t, []) == [47, 10, 107, 61, 118, 10, 10, 47, 110, 10, 107, 61, 118, 10]
  {
    hide EntryText, Escape;
    EntryLines();
    EscapeOne(110, 47);
    var e := [Pair([107], [118])];
    var sub := Tree(e, []);
    var t := Tree(e, [Kid([110], sub)]);
    assert e[..0] == [] && EntriesText(e) == [] + [107, 61, 118, 10];
    assert [] + [[110]] == [[110]] && PathText([[110]]) == [110];
    assert TreeText(sub, [[110]]) == [47] + [110] + [10] + [107, 61, 118, 10] + [];
    assert KidsText(t, 0, []) == [];
    assert KidsText(t, 1, []) == [] + [10] + TreeText(sub, [[110]]);
  }
}
