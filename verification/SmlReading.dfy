/**
 * Reading messages from tokens. None stands for an input with an error: the parser reports errors as it goes and
 * hands out no message at all once there is one.
 */
module SmlReading {
  import opened Wrappers
  import opened Names
  import opened Items
  import opened Messages
  import opened SmlPrinting

  /**
   * What was read, the position behind it, and the variable names and the number of ellipses seen so far in the
   * message.
   */
  datatype Read<+T> = Read(value: T, pos: nat, names: set<Name>, ellipses: nat)

  predicate Next(ts: seq<Token>, pos: nat, t: Token) {
    pos < |ts| && ts[pos] == t
  }

  // Values

  /** The value of a number in an array item; a binary value that is no integer at all counts as 0. */
  function ReadNumber(kind: Kind, value: Option<int>): Option<int> {
    if value.None? && kind == Binary then Some(0)
    else if value.Some? && kind != Boolean && kind.Fits(value.value) then value
    else None
  }

  /** Reads values up to '>', which it leaves. */
  function ReadCells(kind: Kind, ts: seq<Token>, pos: nat, names: set<Name>,
                     cells: seq<Cell>): (r: Option<Read<seq<Cell>>>)
    ensures r.Some? ==> pos <= r.value.pos < |ts|
    decreases |ts| - pos
  {
    if pos >= |ts| then None
    else
      match ts[pos]
      case RightAngle => Some(Read(cells, pos, names, 0))
      case Variable(n) => if n in names then None else ReadCells(kind, ts, pos + 1, names + {n}, cells + [Hole(n)])
      case Number(value) =>
        var v :- ReadNumber(kind, value);
        ReadCells(kind, ts, pos + 1, names, cells + [Lit(v)])
      case Bool(b) => if kind == Boolean then ReadCells(kind, ts, pos + 1, names, cells + [Lit(if b then 1 else 0)])
        else None
      case _ => None
  }

  function Digit(c: byte): nat {
    if 48 <= c < 58 then c - 48 else if 97 <= c < 103 then c - 87 else if 65 <= c < 71 then c - 55 else 16
  }

  /** The number that hexadecimal or octal digits spell, most significant first. */
  function Spelled(cs: seq<byte>, hex: bool): Option<nat> {
    if cs == [] then Some(0)
    else
      var front :- Spelled(Front(cs), hex);
      if Digit(Last(cs)) < (if hex then 16 else 8) then Some((if hex then front * 16 else front * 8) + Digit(Last(cs)))
        else None
  }

  /** The character an escape sequence stands for, from the letter behind its backslash, and its length. */
  function Escape(cs: seq<byte>): (r: (Option<nat>, nat))
    requires cs != []
    ensures 1 <= r.1 && (r.0.Some? ==> r.1 <= |cs|)
  {
    var c := cs[0];
    if c == 97 then (Some(7), 1) else if c == 98 then (Some(8), 1) else if c == 102 then (Some(12), 1)
    else if c == 110 then (Some(10), 1) else if c == 114 then (Some(13), 1) else if c == 116 then (Some(9), 1)
    else if c == 118 then (Some(11), 1) else if c == 92 then (Some(92), 1) else if c == 34 then (Some(34), 1)
    else if c == 120 then (if |cs| < 3 then None else Spelled(cs[1..3], true), 3)
    else if c == 117 then (if |cs| < 5 then None else ScalarValue(Spelled(cs[1..5], true)), 5)
    else if c == 85 then (if |cs| < 9 then None else ScalarValue(Spelled(cs[1..9], true)), 9)
    else if 48 <= c < 56 then (if |cs| < 3 then None else Within(Spelled(cs[..3], false), 0xFF), 3)
    else (None, 1)
  }

  function Within(v: Option<nat>, most: nat): Option<nat> {
    if v.Some? && v.value <= most then v else None
  }

  function ScalarValue(v: Option<nat>): Option<nat> {
    if v.Some? && 0xD800 <= v.value < 0xE000 then None else Within(v, 0x10_FFFF)
  }

  /** The characters a string means; None when an escape sequence is malformed. */
  function Unescaped(cs: seq<byte>): Option<seq<nat>> {
    if cs == [] then Some([])
    else if cs[0] == 34 || cs[0] == 10 then None
    else if cs[0] != 92 then
      var rest :- Unescaped(cs[1..]);
      Some([cs[0] as nat] + rest)
    else if |cs| == 1 then None
    else
      var (c, length) := Escape(cs[1..]);
      if c.None? then None
      else
        var rest :- Unescaped(cs[1 + length..]);
        Some([c.value] + rest)
  }

  predicate IsAscii(s: seq<nat>) {
    forall i | 0 <= i < |s| :: s[i] < 128
  }

  function AsBytes(s: seq<nat>): seq<byte>
    requires IsAscii(s)
  {
    if s == [] then [] else [s[0]] + AsBytes(s[1..])
  }

  /** A malformed string counts as empty, without an error; one with a character beyond ASCII is an error. */
  function ReadString(cs: seq<byte>): Option<seq<byte>> {
    var value := Unescaped(cs);
    if value.None? then Some([])
    else if IsAscii(value.value) then Some(AsBytes(value.value))
    else None
  }

  /** Reads strings and character codes up to '>', which it leaves. */
  function ReadText(ts: seq<Token>, pos: nat, text: seq<byte>): (r: Option<Read<seq<byte>>>)
    ensures r.Some? ==> pos <= r.value.pos < |ts|
    decreases |ts| - pos
  {
    if pos >= |ts| then None
    else
      match ts[pos]
      case RightAngle => Some(Read(text, pos, {}, 0))
      case Quoted(chars) =>
        var s :- ReadString(chars);
        ReadText(ts, pos + 1, text + s)
      case Number(value) => if value.Some? && 0 <= value.value < 128 then ReadText(ts, pos + 1, text + [value.value])
        else None
      case _ => None
  }

  // Items

  predicate SizeWithin(size: nat, low: nat, high: int) {
    low <= size && (high != -1 ==> size <= high)
  }

  function Checked(item: Item): Option<Item> {
    if Rep(item) then Some(item) else None
  }

  /** The items of a list up to '>', which it leaves. */
  function ReadElements(ts: seq<Token>, pos: nat, names: set<Name>, ellipses: nat,
                        items: seq<Item>): (r: Option<Read<seq<Item>>>)
    ensures r.Some? ==> pos <= r.value.pos < |ts|
    decreases |ts| - pos, 1
  {
    if pos >= |ts| then None
    else
      match ts[pos]
      case RightAngle => Some(Read(items, pos, names, ellipses))
      case LeftAngle =>
        var child :- ReadItem(ts, pos, names, ellipses);
        ReadElements(ts, child.pos, child.names, child.ellipses, items + [child.value])
      case Variable(n) =>
        if n in names then None else ReadElements(ts, pos + 1, names + {n}, ellipses, items + [Slot(n)])
      case Ellipsis(_) =>
        if items == [] then None else ReadElements(ts, pos + 1, names, ellipses + 1, items + [Slot(DotsAt(ellipses))])
      case _ => None
  }

  /** The bounds given behind the item type, if any, and the position behind them. */
  function ReadSize(ts: seq<Token>, pos: nat): (r: (nat, int, nat))
    ensures pos <= r.2 <= pos + 1
  {
    if pos < |ts| && ts[pos].ItemSize? then (ts[pos].low, ts[pos].high, pos + 1) else (0, -1, pos)
  }

  function ReadAscii(ts: seq<Token>, pos: nat, names: set<Name>, ellipses: nat, low: nat,
                     high: int): (r: Option<Read<Item>>)
    ensures r.Some? ==> pos <= r.value.pos < |ts|
  {
    if pos < |ts| && ts[pos].Variable? then
      var n := ts[pos].name;
      if !Next(ts, pos + 1, RightAngle) || n in names then None
      else
        var item :- Checked(AsciiVar(n, low, high));
        Some(Read(item, pos + 1, names + {n}, ellipses))
    else
      var text :- ReadText(ts, pos, []);
      var item :- Checked(Ascii(text.value));
      if SizeWithin(|text.value|, low, high) then Some(Read(item, text.pos, names, ellipses)) else None
  }

  function ReadNumbers(kind: Kind, ts: seq<Token>, pos: nat, names: set<Name>, ellipses: nat, low: nat,
                       high: int): (r: Option<Read<Item>>)
    ensures r.Some? ==> pos <= r.value.pos < |ts|
  {
    var cells :- ReadCells(kind, ts, pos, names, []);
    var item :- Checked(Numbers(kind, cells.value));
    if SizeWithin(|cells.value|, low, high) then Some(Read(item, cells.pos, cells.names, ellipses)) else None
  }

  function ReadList(ts: seq<Token>, pos: nat, names: set<Name>, ellipses: nat, low: nat,
                    high: int): (r: Option<Read<Item>>)
    ensures r.Some? ==> pos <= r.value.pos < |ts|
    decreases |ts| - pos, 2
  {
    var items :- ReadElements(ts, pos, names, ellipses, []);
    var item :- NewListNode(items.value);
    if SizeWithin(|items.value|, low, high) then Some(Read(item, items.pos, items.names, items.ellipses)) else None
  }

  /** One item, from '<' to '>'. */
  function ReadItem(ts: seq<Token>, pos: nat, names: set<Name>, ellipses: nat): (r: Option<Read<Item>>)
    ensures r.Some? ==> pos + 2 < r.value.pos <= |ts|
    decreases |ts| - pos, 0
  {
    if !Next(ts, pos, LeftAngle) || pos + 1 >= |ts| || !ts[pos + 1].TypeName? then None
    else
      var (low, high, start) := ReadSize(ts, pos + 2);
      var body :-
        match ts[pos + 1].typ
        case L => if start <= |ts| then ReadList(ts, start, names, ellipses, low, high) else None
        case A => ReadAscii(ts, start, names, ellipses, low, high)
        case Of(kind) => ReadNumbers(kind, ts, start, names, ellipses, low, high);
      if ts[body.pos] == RightAngle then Some(body.(pos := body.pos + 1)) else None
  }

  // Messages

  datatype ReadMessage = ReadMessage(message: Message, pos: nat)

  const NO_SYSTEM: seq<byte> := [0, 0, 0, 0]

  function ReadBody(ts: seq<Token>, pos: nat): (r: Option<Read<Item>>)
    ensures r.Some? ==> pos <= r.value.pos <= |ts|
  {
    if Next(ts, pos, MessageEnd) then Some(Read(Empty, pos, {}, 0)) else ReadItem(ts, pos, {}, 0)
  }

  function ReadWait(ts: seq<Token>, pos: nat): (r: (int, nat))
    ensures pos <= r.1 <= pos + 1
  {
    if pos < |ts| && ts[pos].WaitBit? then (if ts[pos].optional then 2 else 1, pos + 1) else (0, pos)
  }

  /** The direction of a message that gives none is "H<->E". */
  function ReadDirection(ts: seq<Token>, pos: nat): (r: (string, nat))
    ensures pos <= r.1 <= pos + 1
  {
    if pos < |ts| && ts[pos].Direction? then (ts[pos].direction, pos + 1) else ("H<->E", pos)
  }

  function ReadName(ts: seq<Token>, pos: nat): (r: (string, nat))
    ensures pos <= r.1 <= pos + 1
  {
    if pos < |ts| && ts[pos].MessageName? then (ts[pos].text, pos + 1) else ("", pos)
  }

  /** The header of a message, with nothing behind it yet, and the position behind it. */
  function ReadHeader(ts: seq<Token>, pos: nat): (r: Option<ReadMessage>)
    ensures r.Some? ==> pos < r.value.pos && r.value.message.Data?
  {
    if pos >= |ts| || !ts[pos].StreamFunction? then None
    else
      var (waitBit, p) := ReadWait(ts, pos + 1);
      var (direction, q) := ReadDirection(ts, p);
      var (name, start) := ReadName(ts, q);
      Some(ReadMessage(Data(name, ts[pos].stream, ts[pos].function_, waitBit, direction, Empty, -1, NO_SYSTEM), start))
  }

  /** One message, from its stream and function to the '.' behind it. */
  function ReadOne(ts: seq<Token>, pos: nat): (r: Option<ReadMessage>)
    ensures r.Some? ==> pos < r.value.pos <= |ts|
  {
    var header :- ReadHeader(ts, pos);
    var body :- ReadBody(ts, header.pos);
    var m := header.message.(item := body.value);
    if Next(ts, body.pos, MessageEnd) && DataOk(m) then Some(ReadMessage(m, body.pos + 1)) else None
  }

  /** All messages of an input. */
  function ReadAll(ts: seq<Token>, pos: nat): Option<seq<Message>>
    decreases |ts| - pos
  {
    if pos >= |ts| then Some([])
    else
      var first :- ReadOne(ts, pos);
      var rest :- ReadAll(ts, first.pos);
      Some([first.message] + rest)
  }
}
