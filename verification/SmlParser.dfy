/** The parser as it runs: it consumes tokens and keeps the names and the number of ellipses of the message at hand. */
module SmlParser {
  import opened Wrappers
  import opened Names
  import opened Items
  import opened Messages
  import opened SmlPrinting
  import opened SmlReading

  class Parser {
    const tokens: seq<Token>
    var pos: nat
    var variableNames: set<Name>
    var ellipsisCount: nat

    constructor (tokens: seq<Token>)
      ensures this.tokens == tokens && pos == 0 && variableNames == {} && ellipsisCount == 0
    {
      this.tokens, pos, variableNames, ellipsisCount := tokens, 0, {}, 0;
    }

    predicate Peeks(t: Token)
      reads this
    {
      Next(tokens, pos, t)
    }

    method ParseValues(kind: Kind) returns (r: Option<seq<Cell>>)
      modifies `pos, `variableNames
      ensures var p := ReadCells(kind, tokens, old(pos), old(variableNames), []);
        if p.Some? then r == Some(p.value.value) && pos == p.value.pos && variableNames == p.value.names else r == None
    {
      hide Kind.Fits;
      var values := [];
      while pos < |tokens|
        invariant ReadCells(kind, tokens, old(pos), old(variableNames), []) ==
          ReadCells(kind, tokens, pos, variableNames, values)
        decreases |tokens| - pos
      {
        var t := tokens[pos];
        if t.RightAngle? {
          return Some(values);
        } else if t.Variable? {
          if t.name in variableNames {
            return None;
          }
          variableNames := variableNames + {t.name};
          values := values + [Hole(t.name)];
        } else if t.Number? {
          var v := ReadNumber(kind, t.value);
          if v.None? {
            return None;
          }
          values := values + [Lit(v.value)];
        } else if t.Bool? && kind == Boolean {
          values := values + [Lit(if t.isTrue then 1 else 0)];
        } else {
          return None;
        }
        pos := pos + 1;
      }
      return None;
    }

    method ParseArray(kind: Kind, sizeStart: nat, sizeEnd: int) returns (r: Option<Item>)
      modifies `pos, `variableNames
      ensures var p := ReadNumbers(kind, tokens, old(pos), old(variableNames), ellipsisCount, sizeStart, sizeEnd);
        if p.Some? then r == Some(p.value.value) && pos == p.value.pos && variableNames == p.value.names &&
          ellipsisCount == p.value.ellipses else r == None
    {
      hide ReadCells, Rep;
      var values := ParseValues(kind);
      if values.None? {
        return None;
      }
      var item := Checked(Numbers(kind, values.value));
      r := if item.Some? && SizeWithin(|values.value|, sizeStart, sizeEnd) then item else None;
    }

    method ParseASCII(minLength: nat, maxLength: int) returns (r: Option<Item>)
      modifies `pos, `variableNames
      ensures var p := ReadAscii(tokens, old(pos), old(variableNames), ellipsisCount, minLength, maxLength);
        if p.Some? then r == Some(p.value.value) && pos == p.value.pos && variableNames == p.value.names &&
          ellipsisCount == p.value.ellipses else r == None
    {
      hide Rep, ReadString;
      if pos < |tokens| && tokens[pos].Variable? {
        var name := tokens[pos].name;
        pos := pos + 1;
        if !Peeks(RightAngle) || name in variableNames {
          return None;
        }
        variableNames := variableNames + {name};
        return Checked(AsciiVar(name, minLength, maxLength));
      }
      var literal: seq<byte> := [];
      while pos < |tokens| && !tokens[pos].RightAngle?
        invariant old(pos) <= pos && variableNames == old(variableNames)
        invariant ReadText(tokens, old(pos), []) == ReadText(tokens, pos, literal)
        decreases |tokens| - pos
      {
        var t := tokens[pos];
        if t.Quoted? {
          var s := ReadString(t.chars);
          if s.None? {
            return None;
          }
          literal := literal + s.value;
        } else if t.Number? && t.value.Some? && 0 <= t.value.value < 128 {
          literal := literal + [t.value.value];
        } else {
          return None;
        }
        pos := pos + 1;
      }
      var item := Checked(Ascii(literal));
      r := if pos < |tokens| && item.Some? && SizeWithin(|literal|, minLength, maxLength) then item else None;
    }

    method ParseList(sizeStart: nat, sizeEnd: int) returns (r: Option<Item>)
      modifies this
      ensures var p := ReadList(tokens, old(pos), old(variableNames), old(ellipsisCount), sizeStart, sizeEnd);
        if p.Some? then r == Some(p.value.value) && pos == p.value.pos && variableNames == p.value.names &&
          ellipsisCount == p.value.ellipses else r == None
      decreases |tokens| - pos, 2
    {
      hide ReadItem, ListOk;
      var values := [];
      while pos < |tokens|
        invariant old(pos) <= pos
        invariant ReadElements(tokens, old(pos), old(variableNames), old(ellipsisCount), []) ==
          ReadElements(tokens, pos, variableNames, ellipsisCount, values)
        decreases |tokens| - pos
      {
        var t := tokens[pos];
        if t.LeftAngle? {
          var childItem := ParseDataItem();
          if childItem.None? {
            return None;
          }
          values := values + [childItem.value];
        } else if t.Variable? {
          if t.name in variableNames {
            return None;
          }
          pos, variableNames, values := pos + 1, variableNames + {t.name}, values + [Slot(t.name)];
        } else if t.Ellipsis? {
          if |values| == 0 {
            return None;
          }
          pos, ellipsisCount, values := pos + 1, ellipsisCount + 1, values + [Slot(DotsAt(ellipsisCount))];
        } else if t.RightAngle? {
          var item := NewListNode(values);
          return if item.Some? && SizeWithin(|values|, sizeStart, sizeEnd) then item else None;
        } else {
          return None;
        }
      }
      return None;
    }

    method ParseDataItem() returns (r: Option<Item>)
      modifies this
      ensures var p := ReadItem(tokens, old(pos), old(variableNames), old(ellipsisCount));
        if p.Some? then r == Some(p.value.value) && pos == p.value.pos && variableNames == p.value.names &&
          ellipsisCount == p.value.ellipses else r == None
      decreases |tokens| - pos, 0
    {
      hide ReadList, ReadAscii, ReadNumbers;
      if !Peeks(LeftAngle) {
        return None;
      }
      pos := pos + 1;
      if pos >= |tokens| || !tokens[pos].TypeName? {
        return None;
      }
      var dataItemType := tokens[pos].typ;
      pos := pos + 1;
      var (sizeStart, sizeEnd, start) := ReadSize(tokens, pos);
      pos := start;
      match dataItemType {
        case L =>
          if pos > |tokens| {
            return None;
          }
          r := ParseList(sizeStart, sizeEnd);
        case A =>
          r := ParseASCII(sizeStart, sizeEnd);
        case Of(kind) =>
          r := ParseArray(kind, sizeStart, sizeEnd);
      }
      if r.None? || !Peeks(RightAngle) {
        return None;
      }
      pos := pos + 1;
    }

    /** No text before the '.' that ends a message, or one item. */
    method ParseMessageText() returns (r: Option<Item>)
      modifies this
      ensures var p := if Next(tokens, old(pos), MessageEnd) then
        Some(Read(Empty, old(pos), old(variableNames), old(ellipsisCount)))
                       else ReadItem(tokens, old(pos), old(variableNames), old(ellipsisCount));
        if p.Some? then r == Some(p.value.value) && pos == p.value.pos else r == None
    {
      hide ReadItem;
      if Peeks(MessageEnd) {
        return Some(Empty);
      }
      r := ParseDataItem();
    }

    /** The header of a message, with nothing behind it yet. */
    method ParseHeader() returns (r: Option<Message>)
      modifies `pos
      ensures var p := ReadHeader(tokens, old(pos));
        if p.Some? then r == Some(p.value.message) && pos == p.value.pos else r == None
    {
      if pos >= |tokens| || !tokens[pos].StreamFunction? {
        return None;
      }
      var code, waitBit, direction, msgName := tokens[pos], 0, "H<->E", "";
      pos := pos + 1;
      if pos < |tokens| && tokens[pos].WaitBit? {
        waitBit := if tokens[pos].optional then 2 else 1;
        pos := pos + 1;
      }
      if pos < |tokens| && tokens[pos].Direction? {
        direction := tokens[pos].direction;
        pos := pos + 1;
      }
      if pos < |tokens| && tokens[pos].MessageName? {
        msgName := tokens[pos].text;
        pos := pos + 1;
      }
      return Some(Data(msgName, code.stream, code.function_, waitBit, direction, Empty, -1, NO_SYSTEM));
    }

    method ParseMessage() returns (r: Option<Message>)
      modifies this
      ensures var p := ReadOne(tokens, old(pos));
        if p.Some? then r == Some(p.value.message) && pos == p.value.pos else r == None
    {
      hide ReadItem, ReadHeader, DataOk;
      variableNames, ellipsisCount := {}, 0;
      var header := ParseHeader();
      if header.None? {
        return None;
      }
      var dataItem := ParseMessageText();
      if dataItem.None? || !Peeks(MessageEnd) {
        return None;
      }
      pos := pos + 1;
      var message := header.value.(item := dataItem.value);
      r := if DataOk(message) then Some(message) else None;
    }
  }

  ghost function Behind(messages: seq<Message>, rest: Option<seq<Message>>): Option<seq<Message>> {
    if rest.None? then None else Some(messages + rest.value)
  }

  lemma NothingBehind(rest: Option<seq<Message>>)
    ensures Behind([], rest) == rest
  {
    if rest.Some? {
      assert [] + rest.value == rest.value;
    }
  }

  lemma OneMore(messages: seq<Message>, tokens: seq<Token>, pos: nat)
    requires pos < |tokens|
    ensures var first := ReadOne(tokens, pos);
      Behind(messages, ReadAll(tokens, pos))
      == if first.None? then None else Behind(messages + [first.value.message], ReadAll(tokens, first.value.pos))
  {
    hide ReadOne;
    var first := ReadOne(tokens, pos);
    if first.Some? && ReadAll(tokens, first.value.pos).Some? {
      var rest := ReadAll(tokens, first.value.pos).value;
      assert messages + ([first.value.message] + rest) == (messages + [first.value.message]) + rest;
    }
  }

  /** The messages of an input, or none at all when there is an error. */
  method Parse(tokens: seq<Token>) returns (r: Option<seq<Message>>)
    ensures r == ReadAll(tokens, 0)
  {
    hide ReadOne, ReadAll;
    var p := new Parser(tokens);
    var messages := [];
    NothingBehind(ReadAll(tokens, 0));
    while p.pos < |tokens|
      invariant p.tokens == tokens && Behind(messages, ReadAll(tokens, p.pos)) == ReadAll(tokens, 0)
      decreases |tokens| - p.pos
    {
      OneMore(messages, tokens, p.pos);
      var message := p.ParseMessage();
      if message.None? {
        return None;
      }
      messages := messages + [message.value];
    }
    NoneLeft(tokens, p.pos);
    assert messages + [] == messages;
    return Some(messages);
  }

  lemma NoneLeft(tokens: seq<Token>, pos: nat)
    requires pos >= |tokens|
    ensures ReadAll(tokens, pos) == Some([])
  {
  }
}
