/**
 src/json/js0n.c against the grammar: JSON texts (RFC 8259) with any blanks between
 tokens, and that the scanner accepts every array and object among them and reports
 exactly the members of the outermost one.
 */
module JsonText {
  import opened Bytes
  import opened Js0n

  // --- texts ---

  /** A character of a string as it is written: itself, a backslash and a letter, a
      backslash, `u` and four digits, or the octets of a UTF-8 sequence. */
  datatype Piece = Plain(c: byte) | Escaped(c: byte) | Hex(digits: Str) | Utf8(lead: byte, more: Str)

  datatype Exponent = NoExponent | Exponent(e: byte, sign: Str, digits: Str)

  /** Containers hold parts: what stands before a value since the last one, and the value.
      A key of an object is a part of its own. */
  datatype Json = JString(pieces: seq<Piece>)
                | JNumber(minus: bool, whole: Str, fraction: Str, exponent: Exponent)
                | JTrue | JFalse | JNull
                | JNode(isObject: bool, parts: seq<Part>, tail: Str)

  datatype Part = Part(fill: Str, value: Json)

  function PieceText(p: Piece): Str {
    match p
    case Plain(c) => [c]
    case Escaped(c) => [92, c]
    case Hex(digits) => [92, 117] + digits
    case Utf8(lead, more) => [lead] + more
  }

  function Pieces(ps: seq<Piece>): Str {
    if ps == [] then [] else PieceText(ps[0]) + Pieces(ps[1..])
  }

  function NumberText(v: Json): Str
    requires v.JNumber?
  {
    (if v.minus then [45] else []) + v.whole + (if v.fraction == [] then [] else [46] + v.fraction)
    + match v.exponent case NoExponent => [] case Exponent(e, sign, digits) => [e] + sign + digits
  }

  function Text(v: Json): Str
    decreases v, 1
  {
    match v
    case JString(ps) => [34] + Pieces(ps) + [34]
    case JNumber(_, _, _, _) => NumberText(v)
    case JTrue => [116, 114, 117, 101]
    case JFalse => [102, 97, 108, 115, 101]
    case JNull => [110, 117, 108, 108]
    case JNode(isObject, _, _) => [if isObject then 123 else 91] + RestFrom(v, 0)
  }

  /** From part `k` of a container to its end. */
  function RestFrom(v: Json, k: nat): Str
    requires v.JNode?
    decreases v, 0, |v.parts| - k
  {
    if k >= |v.parts| then v.tail + [if v.isObject then 125 else 93]
    else v.parts[k].fill + (Text(v.parts[k].value) + RestFrom(v, k + 1))
  }

  // --- which of them are JSON ---

  predicate Digits(s: Str) {
    s != [] && forall i :: 0 <= i < |s| ==> 48 <= s[i] <= 57
  }

  predicate HexDigit(c: byte) {
    48 <= c <= 57 || 65 <= c <= 70 || 97 <= c <= 102
  }

  predicate Blanks(s: Str) {
    forall i :: 0 <= i < |s| ==> s[i] in {9, 10, 13, 32}
  }

  predicate Around(s: Str, c: byte) {
    exists i :: 0 <= i < |s| && s[i] == c && Blanks(s[..i]) && Blanks(s[i + 1..])
  }

  /** Control characters, DEL among them, have to be escaped. */
  predicate PieceOk(p: Piece) {
    match p
    case Plain(c) => 32 <= c <= 126 && c != 34 && c != 92
    case Escaped(c) => c in {34, 92, 47, 98, 102, 110, 114, 116}
    case Hex(digits) => |digits| == 4 && forall i :: 0 <= i < 4 ==> HexDigit(digits[i])
    case Utf8(lead, more) =>
      && 192 <= lead <= 247 && |more| == (if lead < 224 then 1 else if lead < 240 then 2 else 3)
      && forall i :: 0 <= i < |more| ==> 128 <= more[i] <= 191
  }

  predicate ExponentOk(x: Exponent) {
    x.NoExponent? || (x.e in {69, 101} && x.sign in {[], [43], [45]} && Digits(x.digits))
  }

  /** What stands before part `k`: a colon before the value of a member, a comma before
      any other part but the first, and blanks. */
  predicate FillOk(v: Json, k: nat)
    requires v.JNode? && k < |v.parts|
  {
    if v.isObject && k % 2 == 1 then Around(v.parts[k].fill, 58)
    else if k == 0 then Blanks(v.parts[k].fill)
    else Around(v.parts[k].fill, 44)
  }

  ghost predicate Ok(v: Json) {
    match v
    case JString(ps) => forall i :: 0 <= i < |ps| ==> PieceOk(ps[i])
    case JNumber(_, whole, fraction, exponent) =>
      && Digits(whole) && (|whole| > 1 ==> whole[0] != 48)
      && (fraction == [] || Digits(fraction)) && ExponentOk(exponent)
    case JNode(isObject, parts, tail) =>
      && Blanks(tail) && (isObject ==> |parts| % 2 == 0)
      && forall k :: 0 <= k < |parts| ==>
           FillOk(v, k) && Ok(parts[k].value) && (isObject && k % 2 == 0 ==> parts[k].value.JString?)
    case _ => true
  }

  // --- what the scanner should report ---

  /** The inside of a string, the whole of any other value. */
  function Start(v: Json, at: int): int {
    if v.JString? then at + 1 else at
  }

  function Length(v: Json): int {
    if v.JString? then |Pieces(v.pieces)| else |Text(v)|
  }

  function SpansFrom(v: Json, k: nat, at: int): seq<int>
    requires v.JNode?
    decreases |v.parts| - k
  {
    if k >= |v.parts| then []
    else
      var p, here := v.parts[k], at + |v.parts[k].fill|;
      [Start(p.value, here), Length(p.value)] + SpansFrom(v, k + 1, here + |Text(p.value)|)
  }

  // --- scanning ---

  ghost predicate At(js: Str, at: int, text: Str) {
    0 <= at && at + |text| <= |js| && js[at..at + |text|] == text
  }

  lemma AtSplit(js: Str, at: int, a: Str, b: Str)
    requires At(js, at, a + b)
    ensures At(js, at, a) && At(js, at + |a|, b)
  {
    var t := js[at..at + |a + b|];
    assert t[..|a|] == a && t[|a|..] == b;
  }

  lemma AtFirst(js: Str, at: int, text: Str)
    requires At(js, at, text) && text != []
    ensures 0 <= at < |js| && js[at] == text[0]
  {
    assert js[at..at + |text|][0] == js[at];
  }

  /** Between tokens, at `depth`. */
  ghost predicate Between(s: Scanner) {
    s.mode == Struct && s.remain == 0 && s.depth >= 1
  }

  lemma {:induction false} ScanBlanks(js: Str, at: nat, s: Scanner, text: Str)
    requires At(js, at, text) && Blanks(text) && s.mode == Struct
    ensures Scan(js, at, s, 240) == Scan(js, at + |text|, s, 240)
    decreases |text|
  {
    hide Scan;
    if text != [] {
      AtFirst(js, at, text);
      ScanOne(js, at, s, 240);
      assert text == [text[0]] + text[1..];
      AtSplit(js, at, [text[0]], text[1..]);
      ScanBlanks(js, at + 1, s, text[1..]);
    }
  }

  lemma ScanAround(js: Str, at: nat, s: Scanner, text: Str, c: byte)
    requires At(js, at, text) && Around(text, c) && c in {44, 58} && s.mode == Struct
    ensures Scan(js, at, s, 240) == Scan(js, at + |text|, s, 240)
  {
    hide Scan, Blanks, At;
    var i :| 0 <= i < |text| && text[i] == c && Blanks(text[..i]) && Blanks(text[i + 1..]);
    var a, b := text[..i], text[i + 1..];
    assert text == a + ([c] + b);
    AtSplit(js, at, a, [c] + b);
    AtSplit(js, at + i, [c], b);
    ScanBlanks(js, at, s, a);
    ScanMark(js, at + i, s, c);
    ScanBlanks(js, at + i + 1, s, b);
  }

  lemma ScanMark(js: Str, at: nat, s: Scanner, c: byte)
    requires At(js, at, [c]) && c in {44, 58} && s.mode == Struct
    ensures Scan(js, at, s, 240) == Scan(js, at + 1, s, 240)
  {
    hide Scan;
    AtFirst(js, at, [c]);
    ScanOne(js, at, s, 240);
  }

  lemma ScanPiece(js: Str, at: nat, s: Scanner, p: Piece)
    requires At(js, at, PieceText(p)) && PieceOk(p) && s.mode == Str && s.remain == 0
    ensures Scan(js, at, s, 240) == Scan(js, at + |PieceText(p)|, s, 240)
  {
    hide Scan, At;
    var t := PieceText(p);
    AtFirst(js, at, t);
    ScanOne(js, at, s, 240);
    match p
    case Plain(c) =>
    case Escaped(c) =>
      assert t == [92] + [c];
      AtSplit(js, at, [92], [c]);
      ScanEscape(js, at, s, c);
    case Hex(digits) =>
      assert t == [92] + ([117] + digits);
      AtSplit(js, at, [92], [117] + digits);
      AtSplit(js, at + 1, [117], digits);
      ScanEscape(js, at, s, 117);
      ScanPlain(js, at + 2, s, digits);
    case Utf8(lead, more) =>
      AtSplit(js, at, [lead], more);
      ScanFollow(js, at + 1, s, more);
  }

  lemma ScanEscape(js: Str, at: nat, s: Scanner, c: byte)
    requires At(js, at, [92]) && At(js, at + 1, [c]) && s.mode == Str && c in {34, 92, 47, 98, 102, 110, 114, 116, 117}
    ensures Scan(js, at, s, 240) == Scan(js, at + 2, s, 240)
  {
    hide Scan;
    AtFirst(js, at, [92]);
    AtFirst(js, at + 1, [c]);
    ScanOne(js, at, s, 240);
    ScanOne(js, at + 1, s.(mode := Esc), 240);
  }

  lemma {:induction false} ScanPlain(js: Str, at: nat, s: Scanner, text: Str)
    requires At(js, at, text) && (forall i :: 0 <= i < |text| ==> HexDigit(text[i])) && s.mode == Str
    ensures Scan(js, at, s, 240) == Scan(js, at + |text|, s, 240)
    decreases |text|
  {
    hide Scan;
    if text != [] {
      AtFirst(js, at, text);
      ScanOne(js, at, s, 240);
      assert text == [text[0]] + text[1..];
      AtSplit(js, at, [text[0]], text[1..]);
      ScanPlain(js, at + 1, s, text[1..]);
    }
  }

  /** The announced continuation octets. */
  lemma {:induction false} ScanFollow(js: Str, at: nat, s: Scanner, more: Str)
    requires At(js, at, more) && more != [] && (forall i :: 0 <= i < |more| ==> 128 <= more[i] <= 191)
    ensures Scan(js, at, s.(mode := Utf, remain := |more|), 240)
            == Scan(js, at + |more|, s.(mode := Str, remain := 0), 240)
    decreases |more|
  {
    hide Scan;
    AtFirst(js, at, more);
    ScanOne(js, at, s.(mode := Utf, remain := |more|), 240);
    if |more| > 1 {
      assert more == [more[0]] + more[1..];
      AtSplit(js, at, [more[0]], more[1..]);
      ScanFollow(js, at + 1, s, more[1..]);
    }
  }

  lemma {:induction false} ScanPieces(js: Str, at: nat, s: Scanner, ps: seq<Piece>)
    requires At(js, at, Pieces(ps)) && (forall i :: 0 <= i < |ps| ==> PieceOk(ps[i])) && s.mode == Str && s.remain == 0
    ensures Scan(js, at, s, 240) == Scan(js, at + |Pieces(ps)|, s, 240)
    decreases |ps|
  {
    hide Scan, PieceOk, PieceText;
    if ps != [] {
      AtSplit(js, at, PieceText(ps[0]), Pieces(ps[1..]));
      ScanPiece(js, at, s, ps[0]);
      ScanPieces(js, at + |PieceText(ps[0])|, s, ps[1..]);
    }
  }

  /** What scanning a value at `at` does to the scanner: at depth 1 its span is reported. */
  ghost function Effect(s: Scanner, start: int, length: int): Scanner {
    if s.depth == 1 then s.(prev := length, out := s.out + [start, length]) else s
  }

  lemma ScanString(js: Str, at: nat, s: Scanner, ps: seq<Piece>)
    requires At(js, at, [34] + Pieces(ps) + [34]) && (forall i :: 0 <= i < |ps| ==> PieceOk(ps[i])) && Between(s)
    ensures Scan(js, at, s, 240) == Scan(js, at + |Pieces(ps)| + 2, Effect(s, at + 1, |Pieces(ps)|), 240)
  {
    hide Scan, Pieces, PieceOk;
    var inner := Pieces(ps);
    AtSplit(js, at, [34] + inner, [34]);
    AtSplit(js, at, [34], inner);
    AtFirst(js, at, [34]);
    AtFirst(js, at + 1 + |inner|, [34]);
    ScanOne(js, at, s, 240);
    var t := Push(s, at + 1).(mode := Str);
    ScanPieces(js, at + 1, t, ps);
    ScanOne(js, at + 1 + |inner|, t, 240);
    assert s.out + [at + 1] + [|inner|] == s.out + [at + 1, |inner|];
  }

  predicate WordOctet(c: byte) {
    33 <= c <= 126 && c != 44 && c != 93 && c != 125
  }

  /** Octets of a bare word after the first. */
  lemma {:induction false} ScanBare(js: Str, at: nat, s: Scanner, text: Str)
    requires At(js, at, text) && (forall i :: 0 <= i < |text| ==> WordOctet(text[i])) && s.mode == Bare
    ensures Scan(js, at, s, 240) == Scan(js, at + |text|, s, 240)
    decreases |text|
  {
    hide Scan;
    if text != [] {
      AtFirst(js, at, text);
      ScanOne(js, at, s, 240);
      assert text == [text[0]] + text[1..];
      AtSplit(js, at, [text[0]], text[1..]);
      ScanBare(js, at + 1, s, text[1..]);
    }
  }

  /** An octet that may follow a bare word: a blank, a comma, a closing bracket. */
  predicate Stop(c: byte) {
    c in {9, 10, 13, 32, 44, 93, 125}
  }

  lemma ScanWord(js: Str, at: nat, s: Scanner, text: Str)
    requires At(js, at, text) && Between(s) && text != [] && (forall i :: 0 <= i < |text| ==> WordOctet(text[i]))
    requires text[0] in {45, 116, 102, 110} || 48 <= text[0] <= 57
    requires at + |text| < |js| && Stop(js[at + |text|])
    ensures Scan(js, at, s, 240) == Scan(js, at + |text|, Effect(s, at, |text|), 240)
  {
    hide Scan;
    var e := at + |text|;
    AtFirst(js, at, text);
    ScanOne(js, at, s, 240);
    var t := Push(s, at).(mode := Bare);
    assert text == [text[0]] + text[1..];
    AtSplit(js, at, [text[0]], text[1..]);
    ScanBare(js, at + 1, t, text[1..]);
    var u := Cap(t, e - 1).(mode := Struct);
    ScanOne(js, e, t, 240);
    ScanOne(js, e, u, 240);
    assert s.out + [at] + [|text|] == s.out + [at, |text|];
  }

  // --- words ---

  ghost predicate Wordy(text: Str) {
    text != [] && (text[0] in {45, 116, 102, 110} || 48 <= text[0] <= 57)
        && forall i :: 0 <= i < |text| ==> WordOctet(text[i])
  }

  lemma NumberWord(v: Json)
    requires v.JNumber? && Ok(v)
    ensures Wordy(NumberText(v))
  {
    var a: Str := if v.minus then [45] else [];
    var c: Str := if v.fraction == [] then [] else [46] + v.fraction;
    var d: Str := match v.exponent case NoExponent => [] case Exponent(e, sign, digits) => [e] + sign + digits;
    assert NumberText(v) == a + v.whole + c + d;
    assert forall i :: 0 <= i < |c| ==> WordOctet(c[i]);
    assert forall i :: 0 <= i < |d| ==> WordOctet(d[i]);
  }

  // --- values ---

  ghost function RestEffect(s: Scanner, v: Json, k: nat, at: int): Scanner
    requires v.JNode?
    decreases |v.parts| - k
  {
    if k >= |v.parts| then s
    else
      var p, here := v.parts[k], at + |v.parts[k].fill|;
      RestEffect(Effect(s, Start(p.value, here), Length(p.value)), v, k + 1, here + |Text(p.value)|)
  }

  lemma {:induction false} RestDeep(s: Scanner, v: Json, k: nat, at: int)
    requires v.JNode? && s.depth >= 2
    ensures RestEffect(s, v, k, at) == s
    decreases |v.parts| - k
  {
    if k < |v.parts| {
      var p, here := v.parts[k], at + |v.parts[k].fill|;
      RestDeep(s, v, k + 1, here + |Text(p.value)|);
    }
  }

  lemma {:induction false} RestOut(s: Scanner, v: Json, k: nat, at: int)
    requires v.JNode? && s.depth == 1
    ensures var t := RestEffect(s, v, k, at);
            t.out == s.out + SpansFrom(v, k, at) && t.depth == 1 && t.mode == s.mode && t.remain == s.remain
    decreases |v.parts| - k
  {
    if k < |v.parts| {
      var p, here := v.parts[k], at + |v.parts[k].fill|;
      var pair := [Start(p.value, here), Length(p.value)];
      RestOut(Effect(s, pair[0], pair[1]), v, k + 1, here + |Text(p.value)|);
      Assoc(s.out, pair, SpansFrom(v, k + 1, here + |Text(p.value)|));
    }
  }

  lemma TextFirst(v: Json)
    requires Ok(v)
    ensures Text(v) != []
  {
    if v.JNumber? {
      NumberWord(v);
    }
  }

  /** A value that is not a string is followed by an octet that ends a bare word. */
  lemma FollowedBy(v: Json, k: nat)
    requires v.JNode? && Ok(v) && k < |v.parts| && !v.parts[k].value.JString?
    ensures var rest := RestFrom(v, k + 1); rest != [] && Stop(rest[0])
  {
    hide Text;
    if k + 1 < |v.parts| {
      assert FillOk(v, k + 1) && Around(v.parts[k + 1].fill, 44);
      var fill := v.parts[k + 1].fill;
      var i :| 0 <= i < |fill| && fill[i] == 44 && Blanks(fill[..i]) && Blanks(fill[i + 1..]);
      assert i > 0 ==> fill[..i][0] == fill[0];
    }
  }

  lemma {:induction false} ScanValue(js: Str, at: nat, s: Scanner, v: Json)
    requires Ok(v) && At(js, at, Text(v)) && Between(s)
    requires v.JString? || v.JNode? || (at + |Text(v)| < |js| && Stop(js[at + |Text(v)|]))
    ensures Scan(js, at, s, 240) == Scan(js, at + |Text(v)|, Effect(s, Start(v, at), Length(v)), 240)
    decreases v, 1
  {
    hide Scan, Pieces, PieceOk, At, RestFrom, NumberText, Step;
    match v
    case JString(ps) =>
      ScanString(js, at, s, ps);
    case JNumber(_, _, _, _) =>
      NumberWord(v);
      ScanWord(js, at, s, NumberText(v));
    case JNode(isObject, parts, tail) =>
      var open: byte := if isObject then 123 else 91;
      AtSplit(js, at, [open], RestFrom(v, 0));
      ScanOpen(js, at, s, open);
      var t := Push(s, at);
      var u := t.(depth := t.depth + 1);
      ScanRest(js, at + 1, u, v, 0);
      RestDeep(u, v, 0, at + 1);
      assert s.out + [at] + [|Text(v)|] == s.out + [at, |Text(v)|];
    case _ =>
      ScanWord(js, at, s, Text(v));
  }

  lemma ScanOpen(js: Str, at: nat, s: Scanner, c: byte)
    requires At(js, at, [c]) && c in {91, 123} && s.mode == Struct
    ensures var t := Push(s, at); Scan(js, at, s, 240) == Scan(js, at + 1, t.(depth := t.depth + 1), 240)
  {
    hide Scan;
    AtFirst(js, at, [c]);
    ScanOne(js, at, s, 240);
  }

  lemma ScanClose(js: Str, at: nat, s: Scanner, tail: Str, c: byte)
    requires At(js, at, tail + [c]) && Blanks(tail) && c in {93, 125} && s.mode == Struct
    ensures var e := at + |tail| + 1; Scan(js, at, s, 240) == Scan(js, e, Cap(s.(depth := s.depth - 1), e - 1), 240)
  {
    hide Scan, Blanks;
    AtSplit(js, at, tail, [c]);
    ScanBlanks(js, at, s, tail);
    AtFirst(js, at + |tail|, [c]);
    ScanOne(js, at + |tail|, s, 240);
  }

  lemma {:induction false} ScanRest(js: Str, at: nat, s: Scanner, v: Json, k: nat)
    requires v.JNode? && Ok(v) && k <= |v.parts| && At(js, at, RestFrom(v, k)) && Between(s)
    ensures var e := at + |RestFrom(v, k)|;
            var t := RestEffect(s, v, k, at);
            Scan(js, at, s, 240) == Scan(js, e, Cap(t.(depth := t.depth - 1), e - 1), 240)
    decreases v, 0, |v.parts| - k
  {
    hide Scan, Pieces, PieceOk, At, Text, Step, FillOk, Blanks;
    if k == |v.parts| {
      ScanClose(js, at, s, v.tail, if v.isObject then 125 else 93);
    } else {
      var p := v.parts[k];
      var here, text, rest := at + |p.fill|, Text(p.value), RestFrom(v, k + 1);
      AtSplit(js, at, p.fill, text + rest);
      AtSplit(js, here, text, rest);
      ScanFill(js, at, s, v, k);
      if !p.value.JString? {
        FollowedBy(v, k);
        AtFirst(js, here + |text|, rest);
      }
      ScanValue(js, here, s, p.value);
      ScanRest(js, here + |text|, Effect(s, Start(p.value, here), Length(p.value)), v, k + 1);
    }
  }

  lemma ScanFill(js: Str, at: nat, s: Scanner, v: Json, k: nat)
    requires v.JNode? && Ok(v) && k < |v.parts| && At(js, at, v.parts[k].fill) && s.mode == Struct
    ensures Scan(js, at, s, 240) == Scan(js, at + |v.parts[k].fill|, s, 240)
  {
    hide Scan, Around, Blanks;
    assert FillOk(v, k);
    var fill := v.parts[k].fill;
    if v.isObject && k % 2 == 1 {
      ScanAround(js, at, s, fill, 58);
    } else if k == 0 {
      ScanBlanks(js, at, s, fill);
    } else {
      ScanAround(js, at, s, fill, 44);
    }
  }

  /** Every array and object is accepted, with the spans of exactly its own parts, in order. */
  lemma Accepted(before: Str, v: Json, after: Str)
    requires Blanks(before) && Blanks(after) && v.JNode? && Ok(v)
    ensures Scan(before + Text(v) + after, 0, START, 240) == Result(0, SpansFrom(v, 0, |before| + 1))
  {
    hide Scan, Blanks, Pieces, At, RestFrom, Ok, SpansFrom, RestEffect;
    var text := Text(v);
    var js := before + text + after;
    var at, e := |before|, |before| + |text|;
    AtWhole(before, text, after);
    ScanBlanks(js, 0, START, before);
    var open: byte := if v.isObject then 123 else 91;
    AtSplit(js, at, [open], RestFrom(v, 0));
    ScanOpen(js, at, START, open);
    var s := START.(depth := 1);
    ScanRest(js, at + 1, s, v, 0);
    RestOut(s, v, 0, at + 1);
    var t := RestEffect(s, v, 0, at + 1);
    ScanBlanks(js, e, t.(depth := 0), after);
    ScanEnd(js, t.(depth := 0), 240);
  }

  lemma AtWhole(a: Str, b: Str, c: Str)
    ensures At(a + b + c, 0, a) && At(a + b + c, |a|, b) && At(a + b + c, |a| + |b|, c)
  {
  }

  /** The switch version gives the same, exactly when no 0xEF stands before the last three octets. */
  lemma AcceptedSwitch(before: Str, v: Json, after: Str)
    requires Blanks(before) && Blanks(after) && v.JNode? && Ok(v)
    ensures var js := before + Text(v) + after;
            Scan(js, 0, START, 239) == Result(0, SpansFrom(v, 0, |before| + 1))
            <==> forall i :: 0 <= i < |js| - 3 ==> js[i] != 239
  {
    hide Scan, Blanks, Text, Ok, SpansFrom;
    Accepted(before, v, after);
    AgreeExactly(before + Text(v) + after);
  }

  /** What the text shows of a value: the inside of a string, or all of it. */
  function Body(v: Json): Str {
    if v.JString? then Pieces(v.pieces) else Text(v)
  }

  /** The reported spans are where the parts stand: two offsets for each, in order. */
  lemma {:induction false} SpansAre(js: Str, v: Json, k: nat, at: nat, j: nat)
    requires v.JNode? && k <= j < |v.parts| && At(js, at, RestFrom(v, k))
    ensures var out := SpansFrom(v, k, at);
            && |out| == 2 * (|v.parts| - k)
            && At(js, out[2 * (j - k)], Body(v.parts[j].value)) && out[2 * (j - k) + 1] == |Body(v.parts[j].value)|
    decreases |v.parts| - k
  {
    hide At, Text, Pieces;
    var p, here := v.parts[k], at + |v.parts[k].fill|;
    var text, rest := Text(p.value), RestFrom(v, k + 1);
    AtSplit(js, at, p.fill, text + rest);
    AtSplit(js, here, text, rest);
    var more := SpansFrom(v, k + 1, here + |text|);
    SpansCount(v, k + 1, here + |text|);
    if j == k {
      BodyAt(js, here, p.value);
    } else {
      SpansAre(js, v, k + 1, here + |text|, j);
      var out := SpansFrom(v, k, at);
      assert out[2..] == more && out[2 * (j - k)] == more[2 * (j - k - 1)]
             && out[2 * (j - k) + 1] == more[2 * (j - k - 1) + 1];
    }
  }

  lemma {:induction false} SpansCount(v: Json, k: nat, at: int)
    requires v.JNode? && k <= |v.parts|
    ensures |SpansFrom(v, k, at)| == 2 * (|v.parts| - k)
    decreases |v.parts| - k
  {
    hide Text;
    if k < |v.parts| {
      SpansCount(v, k + 1, at + |v.parts[k].fill| + |Text(v.parts[k].value)|);
    }
  }

  lemma BodyAt(js: Str, at: int, v: Json)
    requires At(js, at, Text(v))
    ensures At(js, Start(v, at), Body(v)) && Length(v) == |Body(v)|
  {
    hide At, Pieces;
    if v.JString? {
      AtSplit(js, at, [34] + Pieces(v.pieces), [34]);
      AtSplit(js, at, [34], Pieces(v.pieces));
    }
  }

  /** Of an array of one null, both versions report the null. */
  lemma NullAccepted()
    ensures Scan([91, 110, 117, 108, 108, 93], 0, START, 240) == Result(0, [1, 4])
    ensures Scan([91, 110, 117, 108, 108, 93], 0, START, 239) == Result(0, [1, 4])
  {
    hide Scan;
    var v := JNode(false, [Part([], JNull)], []);
    assert FillOk(v, 0);
    assert RestFrom(v, 1) == [93];
    assert Text(v) == [91] + ([] + ([110, 117, 108, 108] + [93]));
    var js := [] + Text(v) + [];
    assert js == [91, 110, 117, 108, 108, 93];
    assert SpansFrom(v, 1, 5) == [];
    assert SpansFrom(v, 0, 1) == [1, 4] + [];
    Accepted([], v, []);
    AcceptedSwitch([], v, []);
  }

  // --- what is rejected ---

  /** The octets that end the scan: between tokens, in a bare word, in a string, after a
      backslash, and where a continuation octet is due. */
  lemma BadOctets(s: Scanner, c: byte, at: int, limit: int)
    ensures Step(s, c, at, limit) == Bad <==>
              match s.mode
              case Struct => c !in {9, 10, 13, 32, 34, 44, 45, 58, 91, 93, 102, 110, 116, 123, 125} && !(48 <= c <= 57)
              case Bare => c !in {9, 10, 13} && !(32 <= c <= 126)
              case Str => c <= 31 || 127 <= c <= 191 || 248 <= c
              case Esc => c !in {34, 47, 92, 98, 102, 110, 114, 116, 117}
              case Utf => c <= 127 || 192 <= c
  {
  }

  /** DEL in a string is rejected, although section 7 of RFC 8259 lets it stand. */
  lemma DelRejected(u: Str, w: Str, limit: int)
    requires After(u, limit).Next? && After(u, limit).scanner.mode == Str
    ensures Scan(u + ([127] + w), 0, START, limit).code == 1
  {
    hide Scan, After;
    ScanAfter(u, [127] + w, limit);
    assert (u + ([127] + w))[|u|] == 127;
    ScanOne(u + ([127] + w), |u|, After(u, limit).scanner, limit);
  }
}
