/**
 src/text.c: the loader at work on its buffer, unescaping tokens in place, and the
 writer with its flush pointer.
 */
module TextLoad {
  import opened Bytes
  import opened Buffers
  import opened DiskWalk
  import opened TextFormat
  import opened TextRebuild

  /** A finished token lies in the buffer, zero-terminated, before `limit`. */
  ghost predicate TokenAt(b: seq<byte>, off: nat, tok: Str, limit: nat) {
    off + |tok| < limit <= |b| && b[off..off + |tok|] == tok && b[off + |tok|] == 0
  }

  /** The token in progress has been moved together at `off`; `shift` characters of it
      were escapes. */
  ghost predicate Partial(b: seq<byte>, off: nat, tok: Str, shift: nat, pos: nat) {
    off + |tok| + shift == pos <= |b| && b[off..off + |tok|] == tok
  }

  /** Offsets and buffer hold what the lexer has read of the line. */
  ghost predicate Rep(b: seq<byte>, pos: nat, lineBegin: nat, tokenBegin: nat, shift: nat, path: seq<nat>, x: Lexer) {
    match x.phase
    case Newline => x == FRESH && shift == 0 && path == [] && pos <= |b|
    case InPath =>
      && |path| == |x.done| && lineBegin <= tokenBegin
      && (forall i :: 0 <= i < |path| ==> lineBegin <= path[i] && TokenAt(b, path[i], x.done[i], tokenBegin))
      && Partial(b, tokenBegin, x.cur, shift, pos)
    case InKey => path == [] && x.done == [] && Partial(b, lineBegin, x.cur, shift, pos)
    case InValue =>
      && path == [] && |x.done| == 1 && TokenAt(b, lineBegin, x.done[0], tokenBegin)
      && Partial(b, tokenBegin, x.cur, shift, pos)
  }

  lemma TokenKept(b: seq<byte>, off: nat, tok: Str, limit: nat, i: nat, v: byte)
    requires TokenAt(b, off, tok, limit) && limit <= i < |b|
    ensures TokenAt(b[i := v], off, tok, limit)
  {
    assert b[i := v][off..off + |tok|] == b[off..off + |tok|];
  }

  lemma TokenWider(b: seq<byte>, off: nat, tok: Str, limit: nat, more: nat)
    requires TokenAt(b, off, tok, limit) && limit <= more <= |b|
    ensures TokenAt(b, off, tok, more)
  {
  }

  lemma PartialMore(b: seq<byte>, off: nat, tok: Str, shift: nat, pos: nat, c: byte)
    requires Partial(b, off, tok, shift, pos) && pos < |b|
    ensures Partial(b[pos - shift := c], off, tok + [c], shift, pos + 1)
  {
    var d := b[pos - shift := c];
    assert d[off..off + |tok| + 1] == d[off..off + |tok|] + [c];
    assert d[off..off + |tok|] == b[off..off + |tok|];
  }

  lemma PartialEnds(b: seq<byte>, off: nat, tok: Str, shift: nat, pos: nat)
    requires Partial(b, off, tok, shift, pos) && pos < |b|
    ensures TokenAt(b[pos - shift := 0], off, tok, pos + 1)
  {
    var d := b[pos - shift := 0];
    assert d[off..off + |tok|] == b[off..off + |tok|];
  }

  /** A character joins the token; without escapes so far it is in place already. */
  lemma RepAppend(b: seq<byte>, pos: nat, lineBegin: nat, tokenBegin: nat, shift: nat, path: seq<nat>, x: Lexer,
                  c: byte)
    requires Rep(b, pos, lineBegin, tokenBegin, shift, path, x) && pos < |b| && x.phase != Newline
    ensures shift <= pos && Rep(b[pos - shift := c], pos + 1, lineBegin, tokenBegin, shift, path,
                                x.(cur := x.cur + [c], escaped := false))
  {
    hide TokenAt, Partial;
    var off := if x.phase == InKey then lineBegin else tokenBegin;
    PartialPos(b, off, x.cur, shift, pos);
    PartialMore(b, off, x.cur, shift, pos, c);
    if x.phase == InValue {
      TokenKept(b, lineBegin, x.done[0], tokenBegin, pos - shift, c);
    } else if x.phase == InPath {
      forall i | 0 <= i < |path|
        ensures TokenAt(b[pos - shift := c], path[i], x.done[i], tokenBegin)
      {
        TokenKept(b, path[i], x.done[i], tokenBegin, pos - shift, c);
      }
    }
  }

  lemma PartialPos(b: seq<byte>, off: nat, tok: Str, shift: nat, pos: nat)
    requires Partial(b, off, tok, shift, pos)
    ensures off <= pos - shift
  {
  }

  /** A backslash is dropped from the token. */
  lemma RepEscape(b: seq<byte>, pos: nat, lineBegin: nat, tokenBegin: nat, shift: nat, path: seq<nat>, x: Lexer)
    requires Rep(b, pos, lineBegin, tokenBegin, shift, path, x) && pos < |b| && x.phase != Newline
    ensures Rep(b, pos + 1, lineBegin, tokenBegin, shift + 1, path, x.(escaped := true))
  {
    hide TokenAt;
  }

  /** A path token ends. */
  lemma RepSlash(b: seq<byte>, pos: nat, lineBegin: nat, tokenBegin: nat, shift: nat, path: seq<nat>, x: Lexer)
    requires Rep(b, pos, lineBegin, tokenBegin, shift, path, x) && pos < |b| && x.phase == InPath
    ensures shift <= pos
    ensures Rep(b[pos - shift := 0], pos + 1, lineBegin, pos + 1, 0, path + [tokenBegin],
                x.(done := x.done + [x.cur], cur := []))
  {
    hide TokenAt, Partial;
    PartialPos(b, tokenBegin, x.cur, shift, pos);
    PartialEnds(b, tokenBegin, x.cur, shift, pos);
    PartialNew(b[pos - shift := 0], pos + 1);
    forall i | 0 <= i < |path|
      ensures TokenAt(b[pos - shift := 0], path[i], x.done[i], pos + 1)
    {
      TokenKept(b, path[i], x.done[i], tokenBegin, pos - shift, 0);
      TokenWider(b[pos - shift := 0], path[i], x.done[i], tokenBegin, pos + 1);
    }
  }

  lemma PartialNew(b: seq<byte>, pos: nat)
    requires pos <= |b|
    ensures Partial(b, pos, [], 0, pos)
  {
  }

  /** The key ends and the value begins. */
  lemma RepEquals(b: seq<byte>, pos: nat, lineBegin: nat, tokenBegin: nat, shift: nat, path: seq<nat>, x: Lexer)
    requires Rep(b, pos, lineBegin, tokenBegin, shift, path, x) && pos < |b| && x.phase == InKey
    ensures shift <= pos
    ensures Rep(b[pos - shift := 0], pos + 1, lineBegin, pos + 1, 0, path,
                x.(phase := InValue, done := x.done + [x.cur], cur := []))
  {
    hide TokenAt, Partial;
    PartialPos(b, lineBegin, x.cur, shift, pos);
    PartialEnds(b, lineBegin, x.cur, shift, pos);
    PartialNew(b[pos - shift := 0], pos + 1);
  }

  // --- reading tokens at the end of a line ---

  lemma {:induction false} CStrCut(tok: Str, rest: Str)
    ensures CStr(tok + [0] + rest) == CStr(tok)
  {
    if tok == [] {
      assert (tok + [0] + rest)[0] == 0;
    } else {
      CStrCut(tok[1..], rest);
      assert (tok + [0] + rest)[1..] == tok[1..] + [0] + rest;
    }
  }

  lemma TokenRead(b: seq<byte>, off: nat, tok: Str, limit: nat)
    requires TokenAt(b, off, tok, limit)
    ensures CStr(b[off..]) == CStr(tok)
  {
    hide CStr;
    CStrCut(tok, b[off + |tok| + 1..]);
    assert b[off..] == tok + [0] + b[off + |tok| + 1..];
  }

  /** After the line has been terminated: the tokens the loader reads. */
  ghost predicate LineReady(b: seq<byte>, lineBegin: nat, tokenBegin: nat, path: seq<nat>, x: Lexer) {
    match x.phase
    case InPath =>
      && |path| == |x.done| && tokenBegin < |b| && CStr(b[tokenBegin..]) == CStr(x.cur)
      && forall i :: 0 <= i < |path| ==> path[i] < |b| && CStr(b[path[i]..]) == CStr(x.done[i])
    case InValue =>
      && |x.done| == 1 && lineBegin < |b| && tokenBegin < |b|
      && CStr(b[lineBegin..]) == CStr(x.done[0]) && CStr(b[tokenBegin..]) == CStr(x.cur)
    case _ => true
  }

  lemma RepLine(b: seq<byte>, pos: nat, lineBegin: nat, tokenBegin: nat, shift: nat, path: seq<nat>, x: Lexer)
    requires Rep(b, pos, lineBegin, tokenBegin, shift, path, x) && pos < |b|
    ensures shift <= pos && LineReady(b[pos - shift := 0], lineBegin, tokenBegin, path, x)
  {
    hide CStr;
    if x.phase == InPath || x.phase == InValue {
      PartialPos(b, tokenBegin, x.cur, shift, pos);
      PartialEnds(b, tokenBegin, x.cur, shift, pos);
      var d := b[pos - shift := 0];
      TokenRead(d, tokenBegin, x.cur, pos + 1);
      if x.phase == InValue {
        TokenKept(b, lineBegin, x.done[0], tokenBegin, pos - shift, 0);
        TokenRead(d, lineBegin, x.done[0], tokenBegin);
      } else {
        forall i | 0 <= i < |path|
          ensures path[i] < |d| && CStr(d[path[i]..]) == CStr(x.done[i])
        {
          TokenKept(b, path[i], x.done[i], tokenBegin, pos - shift, 0);
          TokenRead(d, path[i], x.done[i], tokenBegin);
        }
      }
    }
  }

  /** Moving the line to the front of another buffer. */
  lemma RepMoved(b: seq<byte>, d: seq<byte>, pos: nat, lineBegin: nat, tokenBegin: nat, shift: nat, path: seq<nat>,
                 moved: seq<nat>, x: Lexer)
    requires Rep(b, pos, lineBegin, tokenBegin, shift, path, x) && x.phase != Newline && pos == |b|
    requires lineBegin <= |b| && |d| == |b| - lineBegin + 1 && d[..|b| - lineBegin] == b[lineBegin..]
    requires |moved| == |path| && forall i :: 0 <= i < |path| ==> moved[i] == path[i] - lineBegin
    ensures lineBegin <= pos && Rep(d, pos - lineBegin, 0, if tokenBegin < lineBegin then 0
                                                           else tokenBegin - lineBegin, shift, moved, x)
  {
    hide TokenAt, Partial;
    if x.phase == InKey {
      PartialMoved(b, d, lineBegin, x.cur, shift, pos, lineBegin);
    } else {
      if x.phase == InValue {
        TokenMoved(b, d, lineBegin, x.done[0], tokenBegin, lineBegin);
      }
      PartialMoved(b, d, tokenBegin, x.cur, shift, pos, lineBegin);
      forall i | 0 <= i < |path|
        ensures TokenAt(d, moved[i], x.done[i], tokenBegin - lineBegin)
      {
        TokenMoved(b, d, path[i], x.done[i], tokenBegin, lineBegin);
      }
    }
  }

  lemma PartialMoved(b: seq<byte>, d: seq<byte>, off: nat, tok: Str, shift: nat, pos: nat, k: nat)
    requires Partial(b, off, tok, shift, pos) && k <= off && k <= |b| && pos == |b|
    requires |d| == |b| - k + 1 && d[..|b| - k] == b[k..]
    ensures Partial(d, off - k, tok, shift, pos - k)
  {
    assert d[off - k..off - k + |tok|] == d[..|b| - k][off - k..off - k + |tok|];
  }

  lemma TokenMoved(b: seq<byte>, d: seq<byte>, off: nat, tok: Str, limit: nat, k: nat)
    requires TokenAt(b, off, tok, limit) && k <= off && k <= |b|
    requires |d| == |b| - k + 1 && d[..|b| - k] == b[k..]
    ensures k <= limit && TokenAt(d, off - k, tok, limit - k)
  {
    assert d[off - k..off - k + |tok|] == d[..|b| - k][off - k..off - k + |tok|];
    assert d[off - k + |tok|] == d[..|b| - k][off - k + |tok|];
  }

  lemma {:induction false} NamesSnoc(ts: seq<Str>, t: Str)
    ensures Names(ts + [t]) == Names(ts) + if CStr(t) == [] then [] else [CStr(t)]
  {
    assert (ts + [t])[..|ts|] == ts;
  }

  class LoadCtx {
    const hash: Str -> u32
    var buf: array<byte>
    var pos: nat
    var lineBegin: nat
    var tokenBegin: nat
    var shift: nat
    var path: seq<nat>
    var state: Phase
    var unescape: bool
    var db: Loader
    ghost var x: Lexer

    ghost predicate Valid()
      reads this, buf
    {
      && Rep(buf[..], pos, lineBegin, tokenBegin, shift, path, x)
      && state == x.phase && unescape == x.escaped && lineBegin <= pos
    }

    /** `load_ctx_init`. */
    constructor (hash: Str -> u32, root: Tree, buf: array<byte>)
      ensures Valid() && x == FRESH && pos == 0 && this.buf == buf && db == Loader(root, []) && this.hash == hash
    {
      this.hash, this.buf, db := hash, buf, Loader(root, []);
      pos, lineBegin, tokenBegin, shift, path := 0, 0, 0, 0, [];
      state, unescape, x := Newline, false, FRESH;
    }

    /** The path tokens of a terminated line, as C strings, empty ones skipped. */
    method ReadNames(offsets: seq<nat>, ghost ts: seq<Str>) returns (names: seq<Str>)
      requires |offsets| == |ts|
      requires forall i :: 0 <= i < |ts| ==> offsets[i] < buf.Length && CStr(buf[offsets[i]..]) == CStr(ts[i])
      ensures names == Names(ts)
    {
      hide CStr, Names;
      names := [];
      assert ts[..0] == [];
      NamesNone();
      for i := 0 to |offsets|
        invariant names == Names(ts[..i])
      {
        NamesSnoc(ts[..i], ts[i]);
        assert ts[..i + 1] == ts[..i] + [ts[i]];
        var name := CStr(buf[offsets[i]..]);
        if name != [] {
          names := names + [name];
        }
      }
      assert ts[..|offsets|] == ts;
    }

    /** `load_process_line`. */
    method ProcessLine()
      requires Valid() && pos < buf.Length
      modifies this, buf
      ensures Valid() && buf == old(buf) && pos == old(pos) && x == FRESH && shift == 0 && path == []
      ensures buf[pos + 1..] == old(buf[pos + 1..])
      ensures db == ApplyAll(old(db), LineEvents(old(x)), hash)
    {
      hide Rep, ApplyAll, LineReady, LineEvents;
      ghost var b := buf[..];
      RepLine(b, pos, lineBegin, tokenBegin, shift, path, x);
      unescape := false;
      Put(pos - shift, 0);
      assert buf[pos + 1..] == buf[..][pos + 1..];
      ApplyLine();
      path := [];
      shift := 0;
      state := Newline;
      x := FRESH;
      RepFresh(buf[..], pos, lineBegin, tokenBegin);
    }

    /** The terminated tokens of the line take effect. */
    method ApplyLine()
      requires LineReady(buf[..], lineBegin, tokenBegin, path, x) && state == x.phase
      modifies this`db
      ensures db == ApplyAll(old(db), LineEvents(x), hash)
    {
      hide Apply, ApplyAll, CStr, Names;
      ApplyNone(db, hash);
      assert forall i :: 0 <= i <= buf.Length ==> buf[..][i..] == buf[i..];
      match state {
        case InPath =>
          var names := ReadNames(path + [tokenBegin], x.done + [x.cur]);
          ApplyOne(db, Path(names), hash);
          db := Apply(db, Path(names), hash);
        case InValue =>
          var k, v := CStr(buf[lineBegin..]), CStr(buf[tokenBegin..]);
          if k != [] && v != [] {
            ApplyOne(db, Entry(k, v), hash);
            db := Apply(db, Entry(k, v), hash);
          }
        case _ =>
      }
    }

    /** `load_process_single_char`. */
    method ProcessChar()
      requires Valid() && pos < buf.Length
      modifies this, buf
      ensures Valid() && buf == old(buf) && pos == old(pos) + 1
      ensures buf[pos..] == old(buf[pos + 1..])
      ensures x == Advance(old(x), old(buf[pos])) && db == ApplyAll(old(db), Emit(old(x), old(buf[pos])), hash)
    {
      hide Rep, ApplyAll, LineEvents, Feed;
      ghost var b := buf[..];
      var c := buf[pos];
      ApplyNone(db, hash);
      if c == LF || c == CR {
        ProcessLine();
        pos := pos + 1;
        RepFresh(buf[..], pos, lineBegin, tokenBegin);
        return;
      }
      if state == Newline {
        RepNewline(b, pos, lineBegin, tokenBegin, shift, path, x);
        lineBegin := pos;
        if c == SLASH {
          state := InPath;
          tokenBegin := pos + 1;
          pos := pos + 1;
          x := PATH0;
          return;
        }
        state := InKey;
        x := KEY0;
      }
      FeedChar(c);
    }

    method Put(i: nat, v: byte)
      requires i < buf.Length
      modifies buf
      ensures buf[..] == old(buf[..])[i := v]
    {
      buf[i] := v;
    }

    /** The rest of `load_process_single_char`, inside a line. */
    method FeedChar(c: byte)
      requires Valid() && pos < buf.Length && state != Newline && c == buf[pos]
      modifies this, buf
      ensures Valid() && buf == old(buf) && pos == old(pos) + 1 && db == old(db) && x == Feed(old(x), c)
      ensures buf[pos..] == old(buf[pos + 1..])
    {
      hide Rep;
      ghost var b := buf[..];
      if unescape {
        RepAppend(b, pos, lineBegin, tokenBegin, shift, path, x, Unescaped(c));
        Put(pos - shift, Unescaped(c));
        unescape := false;
      } else if c == BACKSLASH {
        RepEscape(b, pos, lineBegin, tokenBegin, shift, path, x);
        shift := shift + 1;
        unescape := true;
      } else if (state == InPath && c == SLASH) || (state == InKey && c == EQUALS) {
        EndToken(c);
        return;
      } else {
        RepAppend(b, pos, lineBegin, tokenBegin, shift, path, x, c);
        if shift != 0 {
          Put(pos - shift, c);
        }
        assert shift == 0 ==> b[pos := c] == b;
      }
      x := Feed(x, c);
      pos := pos + 1;
      assert buf[..][pos..] == b[pos..];
    }

    /** A slash ends a name of the path, an equals sign the key. */
    method EndToken(c: byte)
      requires Valid() && pos < buf.Length && !unescape
               && ((state == InPath && c == SLASH) || (state == InKey && c == EQUALS))
      modifies this, buf
      ensures Valid() && buf == old(buf) && pos == old(pos) + 1 && db == old(db) && x == Feed(old(x), c)
      ensures buf[pos..] == old(buf[pos + 1..])
    {
      hide Rep;
      ghost var b := buf[..];
      if state == InPath {
        RepSlash(b, pos, lineBegin, tokenBegin, shift, path, x);
        path := path + [tokenBegin];
      } else {
        RepEquals(b, pos, lineBegin, tokenBegin, shift, path, x);
        state := InValue;
      }
      Put(pos - shift, 0);
      tokenBegin := pos + 1;
      shift := 0;
      x := Feed(x, c);
      pos := pos + 1;
      assert buf[..][pos..] == b[pos..];
    }

    /** `load_process_final_line`: the last line moves to a buffer with room for its
        terminator. */
    method FinalLine()
      requires Valid() && pos == buf.Length && state != Newline
      modifies this, buf
      ensures db == ApplyAll(old(db), LineEvents(old(x)), hash)
    {
      hide Rep, ApplyAll, LineEvents;
      var size := buf.Length - lineBegin;
      var line := new byte[size + 1];
      ghost var b := buf[..];
      forall i | 0 <= i < size {
        line[i] := buf[lineBegin + i];
      }
      var ps, first := path, lineBegin;
      var moved := seq(|ps|, i requires 0 <= i < |ps| => if ps[i] < first then 0 else ps[i] - first);
      RepAhead(b, pos, lineBegin, tokenBegin, shift, path, x);
      assert line[..][..size] == b[lineBegin..];
      RepMoved(b, line[..], pos, lineBegin, tokenBegin, shift, path, moved, x);
      buf := line;
      pos := size;
      tokenBegin := if tokenBegin < lineBegin then 0 else tokenBegin - lineBegin;
      path := moved;
      lineBegin := 0;
      ProcessLine();
    }
  }

  lemma NamesNone()
    ensures Names([]) == []
  {
  }

  lemma RepFresh(b: seq<byte>, pos: nat, lineBegin: nat, tokenBegin: nat)
    requires pos <= |b|
    ensures Rep(b, pos, lineBegin, tokenBegin, 0, [], FRESH)
  {
  }

  lemma RepNewline(b: seq<byte>, pos: nat, lineBegin: nat, tokenBegin: nat, shift: nat, path: seq<nat>, x: Lexer)
    requires Rep(b, pos, lineBegin, tokenBegin, shift, path, x) && x.phase == Newline && pos < |b|
    ensures x == FRESH && Rep(b, pos + 1, pos, pos + 1, shift, path, PATH0)
            && Rep(b, pos, pos, tokenBegin, shift, path, KEY0)
  {
  }

  lemma RepAhead(b: seq<byte>, pos: nat, lineBegin: nat, tokenBegin: nat, shift: nat, path: seq<nat>, x: Lexer)
    requires Rep(b, pos, lineBegin, tokenBegin, shift, path, x)
    ensures forall i :: 0 <= i < |path| ==> lineBegin <= path[i]
  {
  }

  /** `sdb_text_load_buf`: the buffer is rewritten while it is read, and still every
      line is understood as it was written. */
  method LoadBuf(buf: array<byte>, hash: Str -> u32, root: Tree) returns (r: Tree)
    modifies buf
    ensures r == ApplyAll(Loader(root, []), Decode(old(buf[..])), hash).root
  {
    hide ApplyAll, LineEvents, Advance, Emit, LexAfter, EventsOf;
    ghost var text := buf[..];
    var l := Loader(root, []);
    DecodeStart(l, hash);
    if buf.Length == 0 {
      assert text == [];
      return root;
    }
    var ctx := new LoadCtx(hash, root, buf);
    assert text[..0] == [];
    while ctx.pos < buf.Length
      invariant ctx.Valid() && ctx.buf == buf && ctx.pos <= buf.Length && fresh(ctx) && ctx.hash == hash
      invariant buf[ctx.pos..] == text[ctx.pos..]
      invariant ctx.x == LexAfter(FRESH, text[..ctx.pos])
      invariant ctx.db == ApplyAll(l, EventsOf(FRESH, text[..ctx.pos]), hash)
    {
      DecodeStep(l, text, ctx.pos, hash);
      assert buf[ctx.pos] == buf[ctx.pos..][0] && buf[ctx.pos + 1..] == buf[ctx.pos..][1..];
      ctx.ProcessChar();
    }
    assert text[..ctx.pos] == text;
    ApplyConcat(l, EventsOf(FRESH, text), LineEvents(ctx.x), hash);
    if ctx.state != Newline {
      ctx.FinalLine();
    } else {
      NewlineNothing(ctx.db, ctx.x, hash);
    }
    return ctx.db.root;
  }

  lemma DecodeStart(l: Loader, hash: Str -> u32)
    ensures LexAfter(FRESH, []) == FRESH && EventsOf(FRESH, []) == [] && ApplyAll(l, [], hash) == l
            && LineEvents(FRESH) == []
    ensures Decode([]) == []
  {
  }

  lemma NewlineNothing(l: Loader, x: Lexer, hash: Str -> u32)
    requires x.phase == Newline
    ensures ApplyAll(l, LineEvents(x), hash) == l
  {
  }

  lemma DecodeStep(l: Loader, text: Str, n: nat, hash: Str -> u32)
    requires n < |text|
    ensures LexAfter(FRESH, text[..n + 1]) == Advance(LexAfter(FRESH, text[..n]), text[n])
    ensures ApplyAll(l, EventsOf(FRESH, text[..n + 1]), hash)
            == ApplyAll(ApplyAll(l, EventsOf(FRESH, text[..n]), hash), Emit(LexAfter(FRESH, text[..n]), text[n]), hash)
  {
    hide ApplyAll, Advance, Emit;
    assert text[..n + 1][..n] == text[..n] && text[..n + 1][n] == text[n];
    ApplyConcat(l, EventsOf(FRESH, text[..n]), Emit(LexAfter(FRESH, text[..n]), text[n]), hash);
  }

  // --- the writer ---

  predicate Special(c: byte, ch: byte) {
    c == BACKSLASH || c == CR || c == LF || (ch != 0 && c == ch)
  }

  /** What writing `text` at the end of a file does: all of it arrives exactly when no
      write was short, and what was there before stays in any case. */
  ghost predicate Appended(before: Str, faults0: nat, after: Str, faults: nat, text: Str) {
    && before <= after && faults0 <= faults
    && (faults == faults0 ==> after == before + text)
  }

  lemma AppendedNone(data: Str, faults: nat)
    ensures Appended(data, faults, data, faults, [])
  {
  }

  lemma AppendedMore(d0: Str, f0: nat, d1: Str, f1: nat, a: Str, d2: Str, f2: nat, b: Str)
    requires Appended(d0, f0, d1, f1, a) && Appended(d1, f1, d2, f2, b)
    ensures Appended(d0, f0, d2, f2, a + b) && f0 <= f1 <= f2
  {
    Assoc(d0, a, b);
  }

  /** One `write` at the end of the file, whose result is compared with the length. */
  method Put(file: OutFile, text: Str) returns (ok: bool)
    requires file.at == |file.data|
    modifies file, file.sys
    ensures file.at == |file.data| && Appended(old(file.data), old(file.sys.faults), file.data, file.sys.faults, text)
    ensures ok <==> file.sys.faults == old(file.sys.faults)
  {
    var w := file.Write(text);
    assert text[..|text|] == text;
    ok := w == |text|;
  }

  /** `escape_flush`. */
  method Flush(file: OutFile, text: Str) returns (ok: bool)
    requires file.at == |file.data|
    modifies file, file.sys
    ensures file.at == |file.data| && Appended(old(file.data), old(file.sys.faults), file.data, file.sys.faults, text)
    ensures ok <==> file.sys.faults == old(file.sys.faults)
  {
    ok := true;
    if text != [] {
      ok := Put(file, text);
    }
  }

  /** A run that needs no escaping, then an escaped character. */
  method FlushAnd(file: OutFile, run: Str, pair: Str) returns (ok: bool)
    requires file.at == |file.data|
    modifies file, file.sys
    ensures file.at == |file.data|
            && Appended(old(file.data), old(file.sys.faults), file.data, file.sys.faults, run + pair)
    ensures ok <==> file.sys.faults == old(file.sys.faults)
  {
    ok := Flush(file, run);
    if ok {
      ghost var d, f := file.data, file.sys.faults;
      ok := Put(file, pair);
      AppendedMore(old(file.data), old(file.sys.faults), d, f, run, file.data, file.sys.faults, pair);
    }
  }

  /** `escape_loop`: runs that need no escaping are written in one piece. */
  method EscapeLoop(file: OutFile, s: Str, ch: byte) returns (ok: bool)
    requires file.at == |file.data|
    modifies file, file.sys
    ensures file.at == |file.data|
            && Appended(old(file.data), old(file.sys.faults), file.data, file.sys.faults, Escape(s, ch))
    ensures ok <==> file.sys.faults == old(file.sys.faults)
  {
    hide Escape, Appended, EscapeChar;
    ghost var d0, f0 := file.data, file.sys.faults;
    ghost var out: Str := [];
    var p, n := 0, 0;
    ok := true;
    EscapeNone(ch);
    AppendedNone(d0, f0);
    assert s[..0] == [];
    while n < |s|
      invariant p <= n <= |s| && out + s[p..n] == Escape(s[..n], ch)
      invariant file.at == |file.data| && file.sys.faults == f0 && Appended(d0, f0, file.data, file.sys.faults, out)
    {
      EscapeSnoc(s[..n], s[n], ch);
      assert s[..n] + [s[n]] == s[..n + 1];
      if Special(s[n], ch) {
        ghost var d, f := file.data, file.sys.faults;
        ok := FlushAnd(file, s[p..n], EscapeChar(s[n], ch));
        Assoc(out, s[p..n], EscapeChar(s[n], ch));
        AppendedMore(d0, f0, d, f, out, file.data, file.sys.faults, s[p..n] + EscapeChar(s[n], ch));
        if !ok {
          AppendedFails(d0, f0, file.data, file.sys.faults, out + (s[p..n] + EscapeChar(s[n], ch)), Escape(s, ch));
          return;
        }
        out := out + s[p..n] + EscapeChar(s[n], ch);
        p := n + 1;
      } else {
        Plain(s[n], ch);
        assert out + s[p..n + 1] == out + s[p..n] + [s[n]];
      }
      n := n + 1;
    }
    assert s[..n] == s;
    ghost var d, f := file.data, file.sys.faults;
    ok := Flush(file, s[p..n]);
    AppendedMore(d0, f0, d, f, out, file.data, file.sys.faults, s[p..n]);
  }

  lemma Plain(c: byte, ch: byte)
    requires !Special(c, ch)
    ensures EscapeChar(c, ch) == [c]
  {
  }

  /** After a short write nothing is promised of the text. */
  lemma AppendedFails(d0: Str, f0: nat, d: Str, f: nat, a: Str, b: Str)
    requires Appended(d0, f0, d, f, a) && f != f0
    ensures Appended(d0, f0, d, f, b)
  {
  }

  /** `write_path`. */
  method WritePath(file: OutFile, path: seq<Str>) returns (ok: bool)
    requires file.at == |file.data|
    modifies file, file.sys
    ensures file.at == |file.data|
    ensures Appended(old(file.data), old(file.sys.faults), file.data, file.sys.faults, [SLASH] + PathText(path))
    ensures ok <==> file.sys.faults == old(file.sys.faults)
  {
    hide Escape, PathText, Appended;
    ghost var d0, f0 := file.data, file.sys.faults;
    ok := Put(file, [SLASH]);
    if !ok {
      AppendedFails(d0, f0, file.data, file.sys.faults, [SLASH], [SLASH] + PathText(path));
      return;
    }
    PathTextNone();
    assert path[..0] == [] && [SLASH] + [] == [SLASH];
    var first := true;
    for i := 0 to |path|
      invariant file.at == |file.data| && file.sys.faults == f0 && (first <==> i == 0)
      invariant Appended(d0, f0, file.data, file.sys.faults, [SLASH] + PathText(path[..i]))
    {
      ghost var d, f := file.data, file.sys.faults;
      var slash: Str := if first then [] else [SLASH];
      ok := WriteName(file, slash, path[i]);
      PathTextSnoc(path, i);
      AppendedMore(d0, f0, d, f, [SLASH] + PathText(path[..i]), file.data, file.sys.faults,
                   slash + Escape(path[i], SLASH));
      if !ok {
        AppendedFails(d0, f0, file.data, file.sys.faults,
                      [SLASH] + PathText(path[..i]) + (slash + Escape(path[i], SLASH)),
                      [SLASH] + PathText(path));
        return;
      }
      first := false;
    }
    assert path[..|path|] == path;
    ok := true;
  }

  /** A slash, unless it is the first one, and an escaped name. */
  method WriteName(file: OutFile, slash: Str, name: Str) returns (ok: bool)
    requires file.at == |file.data| && slash in {[], [SLASH]}
    modifies file, file.sys
    ensures file.at == |file.data|
    ensures Appended(old(file.data), old(file.sys.faults), file.data, file.sys.faults, slash + Escape(name, SLASH))
    ensures ok <==> file.sys.faults == old(file.sys.faults)
  {
    hide Escape;
    ok := Flush(file, slash);
    if ok {
      ghost var d, f := file.data, file.sys.faults;
      ok := EscapeLoop(file, name, SLASH);
      AppendedMore(old(file.data), old(file.sys.faults), d, f, slash, file.data, file.sys.faults, Escape(name, SLASH));
    }
  }

  lemma PathTextNone()
    ensures PathText([]) == []
  {
  }

  lemma PathTextSnoc(path: seq<Str>, i: nat)
    requires i < |path|
    ensures var slash: Str := if i == 0 then [] else [SLASH];
            [SLASH] + PathText(path[..i + 1]) == [SLASH] + PathText(path[..i]) + (slash + Escape(path[i], SLASH))
  {
    hide Escape;
    assert path[..i + 1][..i] == path[..i] && path[..i + 1][i] == path[i];
    if i == 0 {
      assert path[..0] == [];
    } else {
      Assoc([SLASH], PathText(path[..i]), [SLASH]);
      Assoc([SLASH], PathText(path[..i]) + [SLASH], Escape(path[i], SLASH));
    }
  }

  /** `save_kv_cb`. */
  method WriteEntry(file: OutFile, e: Pair) returns (ok: bool)
    requires file.at == |file.data|
    modifies file, file.sys
    ensures file.at == |file.data|
            && Appended(old(file.data), old(file.sys.faults), file.data, file.sys.faults, EntryText(e))
    ensures ok <==> file.sys.faults == old(file.sys.faults)
  {
    hide Escape, Appended;
    ghost var d0, f0 := file.data, file.sys.faults;
    var slash: Str := if e.key != [] && e.key[0] == SLASH then [BACKSLASH] else [];
    ok := WriteToken(file, slash, e.key, EQUALS, [EQUALS]);
    if !ok {
      AppendedFails(d0, f0, file.data, file.sys.faults, slash + Escape(e.key, EQUALS) + [EQUALS], EntryText(e));
      return;
    }
    ghost var d, f := file.data, file.sys.faults;
    ok := WriteToken(file, [], e.val, 0, [LF]);
    AppendedMore(d0, f0, d, f, slash + Escape(e.key, EQUALS) + [EQUALS], file.data, file.sys.faults,
                 [] + Escape(e.val, 0) + [LF]);
    assert slash + Escape(e.key, EQUALS) + [EQUALS] + ([] + Escape(e.val, 0) + [LF]) == EntryText(e);
  }

  /** An escaped token with what stands before and after it. */
  method WriteToken(file: OutFile, before: Str, token: Str, ch: byte, after: Str) returns (ok: bool)
    requires file.at == |file.data|
    modifies file, file.sys
    ensures file.at == |file.data|
    ensures Appended(old(file.data), old(file.sys.faults), file.data, file.sys.faults,
                     before + Escape(token, ch) + after)
    ensures ok <==> file.sys.faults == old(file.sys.faults)
  {
    hide Escape;
    ok := Flush(file, before);
    if ok {
      ghost var d, f := file.data, file.sys.faults;
      ok := EscapeLoop(file, token, ch);
      AppendedMore(old(file.data), old(file.sys.faults), d, f, before, file.data, file.sys.faults, Escape(token, ch));
    }
    if ok {
      ghost var d, f := file.data, file.sys.faults;
      ok := Put(file, after);
      AppendedMore(old(file.data), old(file.sys.faults), d, f, before + Escape(token, ch), file.data, file.sys.faults,
                   after);
    }
  }

  /** `text_save`: a namespace, then each of its sub-namespaces. What an entry or a
      sub-namespace reports is not looked at: a short write there goes unnoticed. */
  method TextSave(file: OutFile, t: Tree, path: seq<Str>, sort: bool) returns (ok: bool)
    requires file.at == |file.data|
    modifies file, file.sys
    ensures file.at == |file.data|
    ensures Appended(old(file.data), old(file.sys.faults), file.data, file.sys.faults, TreeText(t, path))
    ensures file.sys.faults == old(file.sys.faults) ==> ok
    decreases t
  {
    hide PathText, EntryText, Appended, TreeText;
    ghost var d0, f0 := file.data, file.sys.faults;
    ghost var head := [SLASH] + PathText(path);
    ok := WritePath(file, path);
    if ok {
      ghost var d, f := file.data, file.sys.faults;
      ok := Put(file, [LF]);
      AppendedMore(d0, f0, d, f, head, file.data, file.sys.faults, [LF]);
      head := head + [LF];
    }
    if !ok {
      AppendedFails(d0, f0, file.data, file.sys.faults, head, TreeText(t, path));
      return;
    }
    ghost var d1, f1 := file.data, file.sys.faults;
    SaveEntries(file, t, sort);
    AppendedMore(d0, f0, d1, f1, head, file.data, file.sys.faults, EntriesText(t.entries));
    ghost var d2, f2 := file.data, file.sys.faults;
    ok := SaveKids(file, t, path, sort);
    AppendedMore(d0, f0, d2, f2, head + EntriesText(t.entries), file.data, file.sys.faults,
                 KidsText(t, |t.kids|, path));
    TreeTextIs(t, path);
  }

  lemma TreeTextIs(t: Tree, path: seq<Str>)
    ensures TreeText(t, path) == [SLASH] + PathText(path) + [LF] + EntriesText(t.entries) + KidsText(t, |t.kids|, path)
  {
  }

  /** The entries. Without sorting, the first one that fails ends the iteration. */
  method SaveEntries(file: OutFile, t: Tree, sort: bool)
    requires file.at == |file.data|
    modifies file, file.sys
    ensures file.at == |file.data|
    ensures Appended(old(file.data), old(file.sys.faults), file.data, file.sys.faults, EntriesText(t.entries))
  {
    hide EntryText, Appended, EntriesText;
    ghost var d0, f0 := file.data, file.sys.faults;
    AppendedNone(d0, f0);
    EntriesNone();
    assert t.entries[..0] == [];
    for i := 0 to |t.entries|
      invariant file.at == |file.data| && Appended(d0, f0, file.data, file.sys.faults, EntriesText(t.entries[..i]))
    {
      ghost var d, f := file.data, file.sys.faults;
      var ok := WriteEntry(file, t.entries[i]);
      EntriesNext(t.entries, i);
      AppendedMore(d0, f0, d, f, EntriesText(t.entries[..i]), file.data, file.sys.faults, EntryText(t.entries[i]));
      if !ok && !sort {
        AppendedFails(d0, f0, file.data, file.sys.faults, EntriesText(t.entries[..i + 1]), EntriesText(t.entries));
        return;
      }
    }
    assert t.entries[..|t.entries|] == t.entries;
  }

  lemma EntriesNone()
    ensures EntriesText([]) == []
  {
  }

  lemma EntriesNext(es: seq<Pair>, i: nat)
    requires i < |es|
    ensures EntriesText(es[..i + 1]) == EntriesText(es[..i]) + EntryText(es[i])
  {
    hide EntryText;
    assert es[..i + 1][..i] == es[..i];
  }

  method SaveKids(file: OutFile, t: Tree, path: seq<Str>, sort: bool) returns (ok: bool)
    requires file.at == |file.data|
    modifies file, file.sys
    ensures file.at == |file.data|
    ensures Appended(old(file.data), old(file.sys.faults), file.data, file.sys.faults, KidsText(t, |t.kids|, path))
    ensures file.sys.faults == old(file.sys.faults) ==> ok
    decreases t, 0
  {
    hide Appended, KidsText, TreeText;
    ghost var d0, f0 := file.data, file.sys.faults;
    AppendedNone(d0, f0);
    KidsNone(t, path);
    for n := 0 to |t.kids|
      invariant file.at == |file.data| && Appended(d0, f0, file.data, file.sys.faults, KidsText(t, n, path))
    {
      ghost var d, f := file.data, file.sys.faults;
      ok := Put(file, [LF]);
      AppendedMore(d0, f0, d, f, KidsText(t, n, path), file.data, file.sys.faults, [LF]);
      if !ok {
        AppendedFails(d0, f0, file.data, file.sys.faults, KidsText(t, n, path) + [LF], KidsText(t, |t.kids|, path));
        return;
      }
      ghost var d1, f1 := file.data, file.sys.faults;
      var kid := t.kids[n];
      var ignored := TextSave(file, kid.node, path + [kid.name], sort);
      AppendedMore(d0, f0, d1, f1, KidsText(t, n, path) + [LF], file.data, file.sys.faults,
                   TreeText(kid.node, path + [kid.name]));
      KidsNext(t, n, path);
    }
    ok := true;
  }

  lemma KidsNone(t: Tree, path: seq<Str>)
    ensures KidsText(t, 0, path) == []
  {
  }

  lemma KidsNext(t: Tree, n: nat, path: seq<Str>)
    requires n < |t.kids|
    ensures KidsText(t, n + 1, path) == KidsText(t, n, path) + [LF] + TreeText(t.kids[n].node, path + [t.kids[n].name])
  {
    hide TreeText;
  }

  /** Save, then load into an empty memory database: the same tree, unless a write was short. */
  method SaveAndLoad(t: Tree, hash: Str -> u32, sort: bool, sys: System) returns (r: Tree)
    requires TreeOk(t, hash)
    modifies sys
    ensures sys.faults == old(sys.faults) ==> r == t
  {
    hide TreeText, Decode, ApplyAll, TreeOk;
    SaveThenLoad(t, hash);
    var file := new OutFile(sys);
    var ok := TextSave(file, t, [], sort);
    var text := file.data;
    var buf := new byte[|text|](i requires 0 <= i < |text| => text[i]);
    assert buf[..] == text;
    assert sys.faults == old(sys.faults) ==> text == TreeText(t, []);
    r := LoadBuf(buf, hash, EMPTY);
  }
}
