/** The serializer's two passes over a value: one with no buffer, which only counts, and one
    that writes.
 */
module Serializer {
  import opened Items
  import opened Numbers
  import opened Strings
  import opened Values
  import opened Printer

  const NUM_BUF_SIZE := 64

  // ---------------------------------------------------------------- buffer contents

  /** `t` and a NUL written into b at position `at`. */
  ghost function Overwritten(b: string, at: nat, t: string): (r: string)
    ensures |r| == |b|
  {
    if at + |t| < |b| then b[..at] + t + "\0" + b[at + |t| + 1..] else b
  }

  /** b is b0 with t written at `start`; the byte after t may have changed, nothing else. */
  ghost predicate Filled(b0: string, b: string, start: nat, t: string) {
    && |b| == |b0|
    && (start + |t| < |b| ==>
         b[..start] == b0[..start] && b[start..start + |t|] == t && b[start + |t| + 1..] == b0[start + |t| + 1..])
  }

  /** The same, with a NUL after t. */
  ghost predicate Ended(b0: string, b: string, start: nat, t: string) {
    Filled(b0, b, start, t) && (start + |t| < |b| ==> b[start + |t|] == '\0')
  }

  lemma FillMore(b0: string, b: string, start: nat, t: string, u: string, tu: string)
    requires Filled(b0, b, start, t) && tu == t + u && (b != [] ==> start + |tu| < |b|)
    ensures Ended(b0, Overwritten(b, start + |t|, u), start, tu)
  {
  }

  lemma FillOne(b0: string, b: string, start: nat, t: string, c: char, tc: string)
    requires Filled(b0, b, start, t) && tc == t + [c] && start + |tc| < |b|
    ensures Filled(b0, b[start + |t| := c], start, tc)
  {
  }

  /** Filling after filling. */
  lemma FillAfter(b0: string, b1: string, b2: string, start: nat, t: string, u: string, tu: string)
    requires Filled(b0, b1, start, t) && Ended(b1, b2, start + |t|, u) && tu == t + u
             && (b2 != [] ==> start + |tu| < |b2|)
    ensures Ended(b0, b2, start, tu)
  {
  }

  /** sprintf(buf + at, "%s", t). */
  method WriteString(buf: array<char>, at: nat, t: string)
    requires at + |t| < buf.Length
    modifies buf
    ensures buf[..] == Overwritten(old(buf[..]), at, t)
  {
    for k := 0 to |t|
      invariant forall j :: 0 <= j < k ==> buf[at + j] == t[j]
      invariant forall j :: 0 <= j < at || at + k <= j < buf.Length ==> buf[j] == old(buf[j])
    {
      buf[at + k] := t[k];
    }
    buf[at + |t|] := '\0';
    IsOverwritten(old(buf[..]), buf[..], at, t);
  }

  lemma IsOverwritten(b0: string, b: string, at: nat, t: string)
    requires |b| == |b0| && at + |t| < |b| && b[at + |t|] == '\0'
    requires forall j :: 0 <= j < |t| ==> b[at + j] == t[j]
    requires forall j :: 0 <= j < at || at + |t| < j < |b| ==> b[j] == b0[j]
    ensures b == Overwritten(b0, at, t)
  {
  }

  // ---------------------------------------------------------------- the moving pointer

  /** `buf`, which may be NULL, and the position written up to. */
  class Sink {
    const buf: array?<char>
    var at: nat

    ghost function Bytes(): string
      reads this, buf
    {
      if buf == null then "" else buf[..]
    }

    ghost predicate Room(n: nat)
      reads this
    {
      buf != null ==> at + n < buf.Length
    }

    constructor (buf: array?<char>)
      ensures this.buf == buf && at == 0
    {
      this.buf := buf;
      at := 0;
    }

    /** APPEND_STRING. */
    method Append(t: string)
      requires Room(|t|)
      modifies this, buf
      ensures at == old(at) + |t| && Bytes() == Overwritten(old(Bytes()), old(at), t)
    {
      if buf != null {
        WriteString(buf, at, t);
      }
      at := at + |t|;
    }

    /** The default branch of json_serialize_string: one byte, no NUL. */
    method Put(c: char)
      requires Room(1)
      modifies this, buf
      ensures at == old(at) + 1
      ensures Bytes() == if buf == null then "" else old(Bytes())[old(at) := c]
    {
      if buf != null {
        buf[at] := c;
      }
      at := at + 1;
    }

    /** sprintf of a number: into `buf`, or into the scratch buffer when there is no `buf`. */
    method Number(literal: string, numBuf: array?<char>)
      requires Room(|literal|) && |literal| < NUM_BUF_SIZE
      requires buf == null ==> numBuf != null && numBuf.Length == NUM_BUF_SIZE
      modifies this, buf, numBuf
      ensures at == old(at) + |literal|
      ensures buf != numBuf ==> Bytes() == Overwritten(old(Bytes()), old(at), literal)
    {
      if buf != null {
        Append(literal);
      } else {
        for k := 0 to |literal|
          modifies numBuf
        {
          numBuf[k] := literal[k];
        }
        numBuf[|literal|] := '\0';
        at := at + |literal|;
      }
    }
  }

  // ---------------------------------------------------------------- strings

  /** The switch of json_serialize_string on one byte. */
  method SerializeChar(sink: Sink, c: char, slashes: bool, ghost b0: string, ghost start: nat, ghost done: string)
    requires Filled(b0, sink.Bytes(), start, done) && sink.at == start + |done|
    requires sink.Room(|EscapeChar(c, slashes)|)
    modifies sink, sink.buf
    ensures sink.at == old(sink.at) + |EscapeChar(c, slashes)|
    ensures Filled(b0, sink.Bytes(), start, done + EscapeChar(c, slashes))
  {
    hide Filled;
    ghost var e := EscapeChar(c, slashes);
    if c >= ' ' && c != '\"' && c != '\\' && c != '/' {
      assert e == [c];
      if sink.buf != null {
        FillOne(b0, sink.Bytes(), start, done, c, done + e);
      } else {
        FillNull(b0, start, done, done + e);
      }
      sink.Put(c);
    } else {
      FillMore(b0, sink.Bytes(), start, done, e, done + e);
      sink.Append(EscapeChar(c, slashes));
    }
  }

  lemma FillNull(b0: string, start: nat, t: string, tu: string)
    requires Filled(b0, "", start, t)
    ensures Filled(b0, "", start, tu)
  {
  }

  /** json_serialize_string. */
  method SerializeString(sink: Sink, text: string, slashes: bool)
    requires sink.Room(|Quote(text, slashes)|)
    modifies sink, sink.buf
    ensures sink.at == old(sink.at) + |Quote(text, slashes)|
    ensures Ended(old(sink.Bytes()), sink.Bytes(), old(sink.at), Quote(text, slashes))
  {
    hide Filled, Overwritten, EscapeChar, Escape;
    ghost var b0, start, all := sink.Bytes(), sink.at, Quote(text, slashes);
    FillNothing(b0, start);
    FillMore(b0, sink.Bytes(), start, "", "\"", "\"");
    sink.Append("\"");
    ghost var done := "\"";
    assert text[0..] == text;
    for i := 0 to |text|
      invariant Filled(b0, sink.Bytes(), start, done) && sink.at == start + |done|
      invariant all == done + (Escape(text[i..], slashes) + "\"")
    {
      EscapeNext(text, i, slashes, done, all);
      SerializeChar(sink, text[i], slashes, b0, start, done);
      done := done + EscapeChar(text[i], slashes);
    }
    EscapeEnd(text[|text|..], slashes);
    assert all == done + "\"";
    FillMore(b0, sink.Bytes(), start, done, "\"", all);
    sink.Append("\"");
  }

  lemma EscapeEnd(t: string, slashes: bool)
    requires t == ""
    ensures Escape(t, slashes) == ""
  {
  }

  lemma FillNothing(b: string, start: nat)
    ensures Filled(b, b, start, "")
  {
  }

  lemma EscapeNext(text: string, i: nat, slashes: bool, done: string, all: string)
    requires i < |text| && all == done + (Escape(text[i..], slashes) + "\"")
    ensures var e := EscapeChar(text[i], slashes);
            all == (done + e) + (Escape(text[i + 1..], slashes) + "\"") && |done| + |e| < |all|
  {
    hide EscapeChar, Escape;
    EscapeFirst(text[i..], slashes);
    assert text[i..][0] == text[i] && text[i..][1..] == text[i + 1..];
    Regrouped(done, EscapeChar(text[i], slashes), Escape(text[i + 1..], slashes), "\"");
  }

  lemma EscapeFirst(t: string, slashes: bool)
    requires t != ""
    ensures Escape(t, slashes) == EscapeChar(t[0], slashes) + Escape(t[1..], slashes)
  {
  }

  lemma Regrouped(a: string, b: string, c: string, d: string)
    ensures a + ((b + c) + d) == (a + b) + (c + d)
  {
  }

  // ---------------------------------------------------------------- values

  /** The scratch buffer of the counting pass. */
  ghost predicate NumBufOk(sink: Sink, numBuf: array?<char>) {
    if sink.buf == null then numBuf != null && numBuf.Length == NUM_BUF_SIZE else numBuf == null
  }

  /** APPEND_STRING when `condition` holds, after `done` has been written. */
  method AppendIf(condition: bool, sink: Sink, t: string, ghost b0: string, ghost start: nat, ghost done: string,
                  ghost next: string)
    requires Filled(b0, sink.Bytes(), start, done) && sink.at == start + |done|
    requires next == done + (if condition then t else "") && sink.Room(|next| - |done|)
    modifies sink, sink.buf
    ensures sink.at == start + |next| && Filled(b0, sink.Bytes(), start, next)
    ensures condition ==> Ended(b0, sink.Bytes(), start, next)
  {
    hide Filled, Overwritten;
    if condition {
      FillMore(b0, sink.Bytes(), start, done, t, next);
      sink.Append(t);
    } else {
      assert next == done;
    }
  }

  /** APPEND_INDENT when `pretty` holds. */
  method AppendIndentIf(pretty: bool, sink: Sink, level: nat, ghost b0: string, ghost start: nat, ghost done: string,
                        ghost next: string)
    requires Filled(b0, sink.Bytes(), start, done) && sink.at == start + |done|
    requires next == done + IndentIf(pretty, level) && sink.Room(|next| - |done|)
    modifies sink, sink.buf
    ensures sink.at == start + |next| && Filled(b0, sink.Bytes(), start, next)
  {
    hide Filled, Overwritten;
    if pretty {
      ghost var now := done;
      for i := 0 to level
        invariant Filled(b0, sink.Bytes(), start, now) && sink.at == start + |now|
        invariant next == now + Indent(level - i)
      {
        ghost var now' := now + "    ";
        assert next == now' + Indent(level - i - 1);
        AppendIf(true, sink, "    ", b0, start, now, now');
        now := now';
      }
      assert Indent(0) == "" && next == now;
    } else {
      assert next == done;
    }
  }

  /** json_serialize_to_buffer_r: counts, and with a buffer also writes, exactly the text of
      the value, ended by one NUL, and touches nothing outside it. */
  method SerializeValue(sink: Sink, v: Value, level: nat, pretty: bool, slashes: bool, numBuf: array?<char>)
    requires WellFormed(v) && NumBufOk(sink, numBuf)
    requires sink.Room(|Print(v, level, pretty, slashes)|)
    modifies sink, sink.buf, numBuf
    ensures sink.at == old(sink.at) + |Print(v, level, pretty, slashes)|
    ensures Ended(old(sink.Bytes()), sink.Bytes(), old(sink.at), Print(v, level, pretty, slashes))
    decreases v, 1
  {
    hide Filled, Overwritten, Print, Quote, WellFormed, IsG17;
    ghost var b0, start := sink.Bytes(), sink.at;
    FillNothing(b0, start);
    PrintCases(v, level, pretty, slashes);
    match v {
      case Array(elements) =>
        SerializeArray(sink, elements, level, pretty, slashes, numBuf, Print(v, level, pretty, slashes));
      case Object(members) =>
        SerializeObject(sink, members, level, pretty, slashes, numBuf, Print(v, level, pretty, slashes));
      case String(text) => SerializeString(sink, text, slashes);
      case Bool(b) =>
        if b {
          AppendIf(true, sink, "true", b0, start, "", "true");
        } else {
          AppendIf(true, sink, "false", b0, start, "", "false");
        }
      case Number(literal) =>
        G17Short(literal);
        FillMore(b0, b0, start, "", literal, literal);
        sink.Number(literal, numBuf);
      case Null => AppendIf(true, sink, "null", b0, start, "", "null");
    }
  }

  lemma PrintCases(v: Value, level: nat, pretty: bool, slashes: bool)
    requires WellFormed(v)
    ensures Layout.IsScalar(v) ==> Print(v, level, pretty, slashes) == ScalarText(v, slashes)
    ensures v.Number? ==> IsG17(v.literal)
    ensures v.Array? ==> forall k :: 0 <= k < |v.elements| ==> WellFormed(v.elements[k])
    ensures v.Object? ==> forall k :: 0 <= k < |v.members| ==> WellFormed(v.members[k].value)
  {
  }

  /** The opening bracket of a container. */
  method Open(sink: Sink, bracket: string, newline: bool, ghost b0: string, ghost start: nat, ghost open: string)
    requires b0 == sink.Bytes() && start == sink.at
    requires open == bracket + (if newline then "\n" else "") && sink.Room(|open|)
    modifies sink, sink.buf
    ensures sink.at == start + |open| && Filled(b0, sink.Bytes(), start, open)
  {
    hide Filled;
    FillNothing(b0, start);
    AppendIf(true, sink, bracket, b0, start, "", bracket);
    AppendIf(newline, sink, "\n", b0, start, bracket, open);
  }

  /** The closing bracket, indented in pretty text. */
  method Close(sink: Sink, bracket: string, indent: bool, level: nat, ghost b0: string, ghost start: nat,
               ghost done: string, ghost close: string, ghost all: string)
    requires Filled(b0, sink.Bytes(), start, done) && sink.at == start + |done|
    requires close == IndentIf(indent, level) + bracket && all == done + ("" + close) && |bracket| == 1
    requires sink.Room(|close|)
    modifies sink, sink.buf
    ensures sink.at == start + |all| && Ended(b0, sink.Bytes(), start, all)
  {
    hide Filled, IndentIf;
    ghost var last := done + IndentIf(indent, level);
    assert all == last + bracket;
    AppendIndentIf(indent, sink, level, b0, start, done, last);
    AppendIf(true, sink, bracket, b0, start, last, all);
  }

  lemma ArrayFrame(elements: seq<Value>, level: nat, pretty: bool, slashes: bool, all: string)
    returns (open: string, close: string)
    requires all == Print(Array(elements), level, pretty, slashes)
    ensures var nonempty := |elements| > 0 && pretty;
            && open == "[" + (if nonempty then "\n" else "")
            && close == IndentIf(nonempty, level) + "]"
            && all == open + (PrintElements(elements, level, pretty, slashes) + close)
  {
    hide Indent;
    var nonempty := |elements| > 0 && pretty;
    open := "[" + (if nonempty then "\n" else "");
    close := IndentIf(nonempty, level) + "]";
  }

  /** The parts one iteration of the element loop appends. */
  lemma ElementParts(elements: seq<Value>, i: nat, level: nat, pretty: bool, slashes: bool, done: string,
                     close: string, all: string)
    returns (d1: string, d2: string, d3: string, d4: string)
    requires i < |elements|
    requires all == done + (PrintElements(elements[i..], level, pretty, slashes) + close)
    ensures d1 == done + IndentIf(pretty, level + 1) && d2 == d1 + Print(elements[i], level + 1, pretty, slashes)
    ensures d3 == d2 + (if i + 1 < |elements| then "," else "") && d4 == d3 + (if pretty then "\n" else "")
    ensures all == d4 + (PrintElements(elements[i + 1..], level, pretty, slashes) + close)
  {
    hide IndentIf, Print;
    var rest := elements[i..];
    assert rest[0] == elements[i] && rest[1..] == elements[i + 1..];
    d1 := done + IndentIf(pretty, level + 1);
    d2 := d1 + Print(elements[i], level + 1, pretty, slashes);
    d3 := d2 + (if i + 1 < |elements| then "," else "");
    d4 := d3 + (if pretty then "\n" else "");
    RegroupElement(done, IndentIf(pretty, level + 1), Print(elements[i], level + 1, pretty, slashes),
      Comma(i + 1 < |elements|), Newline(pretty), PrintElements(elements[i + 1..], level, pretty, slashes), close);
  }

  lemma RegroupElement(done: string, a: string, b: string, e: string, f: string, more: string, close: string)
    ensures done + ((a + b + e + f + more) + close) == (done + a + b + e + f) + (more + close)
  {
  }

  /** One element: indentation, value, comma, newline. */
  method SerializeElement(sink: Sink, e: Value, level: nat, pretty: bool, slashes: bool, numBuf: array?<char>,
                          more: bool, ghost b0: string, ghost start: nat, ghost d0: string, ghost d1: string,
                          ghost d2: string, ghost d3: string, ghost d4: string)
    requires WellFormed(e) && NumBufOk(sink, numBuf)
    requires Filled(b0, sink.Bytes(), start, d0) && sink.at == start + |d0|
    requires d1 == d0 + IndentIf(pretty, level) && d2 == d1 + Print(e, level, pretty, slashes)
    requires d3 == d2 + (if more then "," else "") && d4 == d3 + (if pretty then "\n" else "")
    requires sink.Room(|d4| - |d0|)
    modifies sink, sink.buf, numBuf
    ensures sink.at == start + |d4| && Filled(b0, sink.Bytes(), start, d4)
    decreases e, 3
  {
    hide Filled, WellFormed, IndentIf, Print;
    AppendIndentIf(pretty, sink, level, b0, start, d0, d1);
    SerializeNested(sink, e, level, pretty, slashes, numBuf, b0, start, d1, d2);
    AppendIf(more, sink, ",", b0, start, d2, d3);
    AppendIf(pretty, sink, "\n", b0, start, d3, d4);
  }

  method SerializeNested(sink: Sink, e: Value, level: nat, pretty: bool, slashes: bool, numBuf: array?<char>,
                         ghost b0: string, ghost start: nat, ghost done: string, ghost next: string)
    requires WellFormed(e) && NumBufOk(sink, numBuf)
    requires Filled(b0, sink.Bytes(), start, done) && sink.at == start + |done|
    requires next == done + Print(e, level, pretty, slashes) && sink.Room(|next| - |done|)
    modifies sink, sink.buf, numBuf
    ensures sink.at == start + |next| && Filled(b0, sink.Bytes(), start, next)
    decreases e, 2
  {
    hide Filled, WellFormed, Print;
    ghost var b1 := sink.Bytes();
    SerializeValue(sink, e, level, pretty, slashes, numBuf);
    FillAfter(b0, b1, sink.Bytes(), start, done, Print(e, level, pretty, slashes), next);
  }

  method SerializeArray(sink: Sink, elements: seq<Value>, level: nat, pretty: bool, slashes: bool,
                        numBuf: array?<char>, ghost all: string)
    requires (forall k :: 0 <= k < |elements| ==> WellFormed(elements[k])) && NumBufOk(sink, numBuf)
    requires sink.Room(|all|)
    requires all == Print(Array(elements), level, pretty, slashes)
    modifies sink, sink.buf, numBuf
    ensures sink.at == old(sink.at) + |all|
    ensures Ended(old(sink.Bytes()), sink.Bytes(), old(sink.at), all)
    decreases elements, 3
  {
    hide Filled, Overwritten, PrintElements, WellFormed, Indent, Print;
    ghost var b0, start := sink.Bytes(), sink.at;
    var count := |elements|;
    ghost var open, close := ArrayFrame(elements, level, pretty, slashes, all);
    Open(sink, "[", count > 0 && pretty, b0, start, open);
    ghost var done := open;
    assert elements[0..] == elements;
    for i := 0 to count
      invariant Filled(b0, sink.Bytes(), start, done) && sink.at == start + |done|
      invariant all == done + (PrintElements(elements[i..], level, pretty, slashes) + close)
    {
      ghost var d1, d2, d3, d4 := ElementParts(elements, i, level, pretty, slashes, done, close, all);
      SerializeElement(sink, elements[i], level + 1, pretty, slashes, numBuf, i + 1 < count, b0, start,
                       done, d1, d2, d3, d4);
      done := d4;
    }
    NoMoreElements(elements[count..], level, pretty, slashes);
    Close(sink, "]", count > 0 && pretty, level, b0, start, done, close, all);
  }

  lemma NoMoreElements(elements: seq<Value>, level: nat, pretty: bool, slashes: bool)
    requires elements == []
    ensures PrintElements(elements, level, pretty, slashes) == ""
  {
  }

  lemma ObjectFrame(members: seq<Item<Value>>, level: nat, pretty: bool, slashes: bool, all: string)
    returns (open: string, close: string)
    requires all == Print(Object(members), level, pretty, slashes)
    ensures var nonempty := |members| > 0 && pretty;
            && open == "{" + (if nonempty then "\n" else "")
            && close == IndentIf(nonempty, level) + "}"
            && all == open + (PrintMembers(members, level, pretty, slashes) + close)
  {
    hide Indent;
    var nonempty := |members| > 0 && pretty;
    open := "{" + (if nonempty then "\n" else "");
    close := IndentIf(nonempty, level) + "}";
  }

  /** The parts one iteration of the member loop appends. */
  lemma MemberParts(members: seq<Item<Value>>, i: nat, level: nat, pretty: bool, slashes: bool, done: string,
                    close: string, all: string)
    returns (d1: string, d2: string, d3: string, d4: string, d5: string, d6: string, d7: string)
    requires i < |members|
    requires all == done + (PrintMembers(members[i..], level, pretty, slashes) + close)
    ensures d1 == done + IndentIf(pretty, level + 1) && d2 == d1 + Quote(members[i].name, slashes)
    ensures d3 == d2 + ":" && d4 == d3 + (if pretty then " " else "")
    ensures d5 == d4 + Print(members[i].value, level + 1, pretty, slashes)
    ensures d6 == d5 + (if i + 1 < |members| then "," else "") && d7 == d6 + (if pretty then "\n" else "")
    ensures all == d7 + (PrintMembers(members[i + 1..], level, pretty, slashes) + close)
  {
    hide IndentIf, Print, Quote;
    var rest := members[i..];
    assert rest[0] == members[i] && rest[1..] == members[i + 1..];
    d1 := done + IndentIf(pretty, level + 1);
    d2 := d1 + Quote(members[i].name, slashes);
    d3 := d2 + ":";
    d4 := d3 + (if pretty then " " else "");
    d5 := d4 + Print(members[i].value, level + 1, pretty, slashes);
    d6 := d5 + (if i + 1 < |members| then "," else "");
    d7 := d6 + (if pretty then "\n" else "");
    RegroupMember(done, IndentIf(pretty, level + 1), Quote(members[i].name, slashes), Space(pretty),
      Print(members[i].value, level + 1, pretty, slashes), Comma(i + 1 < |members|), Newline(pretty),
      PrintMembers(members[i + 1..], level, pretty, slashes), close);
  }

  lemma RegroupMember(done: string, a: string, b: string, d: string, e: string, f: string, g: string, more: string,
                      close: string)
    ensures done + ((a + b + ":" + d + e + f + g + more) + close)
            == (done + a + b + ":" + d + e + f + g) + (more + close)
  {
  }

  /** Indentation, a name, a colon, a space. */
  method SerializeName(sink: Sink, name: string, level: nat, pretty: bool, slashes: bool,
                       ghost b0: string, ghost start: nat, ghost d0: string, ghost d1: string, ghost d2: string,
                       ghost d3: string, ghost d4: string)
    requires Filled(b0, sink.Bytes(), start, d0) && sink.at == start + |d0|
    requires d1 == d0 + IndentIf(pretty, level) && d2 == d1 + Quote(name, slashes)
    requires d3 == d2 + ":" && d4 == d3 + (if pretty then " " else "")
    requires sink.Room(|d4| - |d0|)
    modifies sink, sink.buf
    ensures sink.at == start + |d4| && Filled(b0, sink.Bytes(), start, d4)
  {
    hide Filled, IndentIf, Quote;
    AppendIndentIf(pretty, sink, level, b0, start, d0, d1);
    ghost var b1 := sink.Bytes();
    SerializeString(sink, name, slashes);
    FillAfter(b0, b1, sink.Bytes(), start, d1, Quote(name, slashes), d2);
    AppendIf(true, sink, ":", b0, start, d2, d3);
    AppendIf(pretty, sink, " ", b0, start, d3, d4);
  }

  /** The value of a member, comma, newline. */
  method SerializeMemberValue(sink: Sink, e: Value, level: nat, pretty: bool, slashes: bool, numBuf: array?<char>,
                              more: bool, ghost b0: string, ghost start: nat, ghost d4: string, ghost d5: string,
                              ghost d6: string, ghost d7: string)
    requires WellFormed(e) && NumBufOk(sink, numBuf)
    requires Filled(b0, sink.Bytes(), start, d4) && sink.at == start + |d4|
    requires d5 == d4 + Print(e, level, pretty, slashes)
    requires d6 == d5 + (if more then "," else "") && d7 == d6 + (if pretty then "\n" else "")
    requires sink.Room(|d7| - |d4|)
    modifies sink, sink.buf, numBuf
    ensures sink.at == start + |d7| && Filled(b0, sink.Bytes(), start, d7)
    decreases e, 3
  {
    hide Filled, WellFormed, Print;
    SerializeNested(sink, e, level, pretty, slashes, numBuf, b0, start, d4, d5);
    AppendIf(more, sink, ",", b0, start, d5, d6);
    AppendIf(pretty, sink, "\n", b0, start, d6, d7);
  }

  method SerializeObject(sink: Sink, members: seq<Item<Value>>, level: nat, pretty: bool, slashes: bool,
                         numBuf: array?<char>, ghost all: string)
    requires (forall k :: 0 <= k < |members| ==> WellFormed(members[k].value)) && NumBufOk(sink, numBuf)
    requires sink.Room(|all|)
    requires all == Print(Object(members), level, pretty, slashes)
    modifies sink, sink.buf, numBuf
    ensures sink.at == old(sink.at) + |all|
    ensures Ended(old(sink.Bytes()), sink.Bytes(), old(sink.at), all)
    decreases members, 3
  {
    hide Filled, Overwritten, PrintMembers, WellFormed, Indent, Print, Quote;
    ghost var b0, start := sink.Bytes(), sink.at;
    var count := |members|;
    ghost var open, close := ObjectFrame(members, level, pretty, slashes, all);
    Open(sink, "{", count > 0 && pretty, b0, start, open);
    ghost var done := open;
    assert members[0..] == members;
    for i := 0 to count
      invariant Filled(b0, sink.Bytes(), start, done) && sink.at == start + |done|
      invariant all == done + (PrintMembers(members[i..], level, pretty, slashes) + close)
    {
      ghost var d1, d2, d3, d4, d5, d6, d7 := MemberParts(members, i, level, pretty, slashes, done, close, all);
      SerializeName(sink, members[i].name, level + 1, pretty, slashes, b0, start, done, d1, d2, d3, d4);
      SerializeMemberValue(sink, members[i].value, level + 1, pretty, slashes, numBuf, i + 1 < count, b0, start,
                           d4, d5, d6, d7);
      done := d7;
    }
    NoMoreMembers(members[count..], level, pretty, slashes);
    Close(sink, "}", count > 0 && pretty, level, b0, start, done, close, all);
  }

  lemma NoMoreMembers(members: seq<Item<Value>>, level: nat, pretty: bool, slashes: bool)
    requires members == []
    ensures PrintMembers(members, level, pretty, slashes) == ""
  {
  }

  // ---------------------------------------------------------------- the two passes

  /** json_serialization_size and its pretty twin: the counting pass, and room for the NUL. */
  method SerializationSize(v: Value, pretty: bool, slashes: bool) returns (size: nat)
    requires WellFormed(v)
    ensures size == |Print(v, 0, pretty, slashes)| + 1
  {
    hide Print;
    var numBuf := new char[NUM_BUF_SIZE];
    var sink := new Sink(null);
    SerializeValue(sink, v, 0, pretty, slashes, numBuf);
    size := sink.at + 1;
  }

  /** json_serialize_to_buffer and its pretty twin: succeeds exactly when the text and a NUL
      fit, writes them and nothing else, and leaves the buffer alone otherwise. */
  method SerializeToBuffer(v: Value, buf: array<char>, bufSize: nat, pretty: bool, slashes: bool) returns (ok: bool)
    requires WellFormed(v) && bufSize <= buf.Length
    modifies buf
    ensures var t := Print(v, 0, pretty, slashes);
            && (ok <==> |t| + 1 <= bufSize)
            && buf[..] == if ok then t + "\0" + old(buf[|t| + 1..]) else old(buf[..])
  {
    hide Print;
    ghost var t := Print(v, 0, pretty, slashes);
    var needed := SerializationSize(v, pretty, slashes);
    if needed == 0 || bufSize < needed {
      return false;
    }
    var sink := new Sink(buf);
    SerializeValue(sink, v, 0, pretty, slashes, null);
    EndedAtStart(old(buf[..]), buf[..], t);
    ok := true;
  }

  lemma EndedAtStart(b0: string, b: string, t: string)
    requires Ended(b0, b, 0, t) && |t| < |b|
    ensures b == t + "\0" + b0[|t| + 1..]
  {
  }

  /** json_serialize_to_string and its pretty twin: a fresh C string holding the text. */
  method SerializeToString(v: Value, pretty: bool, slashes: bool) returns (buf: array<char>)
    requires WellFormed(v)
    ensures fresh(buf) && buf[..] == Print(v, 0, pretty, slashes) + "\0"
  {
    hide Print;
    var size := SerializationSize(v, pretty, slashes);
    buf := new char[size];
    var ok := SerializeToBuffer(v, buf, size, pretty, slashes);
    assert ok;
  }
}
