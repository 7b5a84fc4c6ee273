/** The message under construction in a transport: connection/transport.cpp, and the pieces
    json_export appends to it. */
module Transport {
  import opened Json
  import opened JsonMessage

  /** What a message may hold. */
  const LIMIT: nat := 1500

  /** The text so far, whose length is the source's position, and the number of fields since the
      last reset. */
  datatype Output = Output(text: string, fields: nat)

  /** The negative code of a refusal, or the characters appended (delimiter not counted). */
  datatype Reply = Reply(code: int, out: Output)

  /** The room left, in the unsigned type the source computes it in. */
  function RoomAt(position: nat): int {
    if position <= LIMIT then LIMIT - position else LIMIT - position + 0x1_0000_0000_0000_0000
  }

  function Room(o: Output): int {
    RoomAt(|o.text|)
  }

  function Delimited(o: Output, delimiter: string): string {
    if o.fields > 0 then delimiter else ""
  }

  /** Appending tests the piece and the delimiter against the room one by one. */
  function Append(o: Output, delimiter: string, piece: string): Reply {
    if |piece| > Room(o) || |Delimited(o, delimiter)| > Room(o) then Reply(-1, o)
    else Reply(|piece|, Output(o.text + Delimited(o, delimiter) + piece, o.fields + 1))
  }

  function ExportValue(o: Output, delimiter: string, tag: string, value: string, room: nat, quotes: bool): Reply {
    if room > Room(o) then Reply(-1, o)
    else Append(o, delimiter, Label(tag) + (if quotes then "\"" + value + "\"" else value))
  }

  function ExportOpen(o: Output, delimiter: string, tag: Option<string>): Reply {
    if Room(o) < 2 then Reply(-1, o)
    else Append(o, delimiter, (if tag.Some? then Label(tag.value) else "") + "{")
  }

  function ExportClose(o: Output, delimiter: string): Reply {
    if Room(o) < 2 then Reply(-1, o) else Append(o, delimiter, "}")
  }

  /** A brace without a tag takes one character besides its delimiter, but is refused where there is
      room for no more than that one. */
  lemma BraceAsksForTwo(o: Output, delimiter: string)
    requires |o.text| <= 1500
    ensures var room, with := 1500 - |o.text|, if o.fields > 0 then delimiter else "";
            var fits := room >= 2 && |with| <= room;
            && ExportOpen(o, delimiter, None) ==
                 (if fits then Reply(1, Output(o.text + with + "{", o.fields + 1)) else Reply(-1, o))
            && ExportClose(o, delimiter) ==
                 (if fits then Reply(1, Output(o.text + with + "}", o.fields + 1)) else Reply(-1, o))
  {
    assert "" + "{" == "{";
  }

  /** What is accepted stays within the limit if and only if piece and delimiter fit together. */
  lemma LimitKeptIff(o: Output, delimiter: string, piece: string)
    requires |o.text| <= LIMIT && Append(o, delimiter, piece).code >= 0
    ensures |Append(o, delimiter, piece).out.text| <= LIMIT
            <==> |Delimited(o, delimiter)| + |piece| <= LIMIT - |o.text|
  {
  }

  /** The characters of the buffer a message is built in. */
  const BUFFER: nat := 2048

  /** A piece that fits, and a delimiter that does, but not the two together, are accepted: the
      message passes the limit, by the delimiter at most. From then on any piece of up to a million
      characters is accepted too, those included with which the message is longer than its buffer. */
  lemma LimitCanBePassed(o: Output, delimiter: string, piece: string)
    requires |o.text| <= LIMIT && o.fields > 0 && |delimiter| <= |piece| <= LIMIT - |o.text| < |delimiter| + |piece|
    requires |delimiter| < 1_000_000
    ensures var r := Append(o, delimiter, piece);
            && r.code == |piece|
            && LIMIT < |r.out.text| == |o.text| + |delimiter| + |piece| <= LIMIT + |delimiter|
            && forall more: string :: |more| <= 1_000_000 ==>
                 var q := Append(r.out, delimiter, more);
                 q.code == |more| && (|q.out.text| > BUFFER <==> |more| > BUFFER - |r.out.text| - |delimiter|)
  {
  }

  /** The fields of a transport that a message is built in. Before the first message is opened the
      source keeps a position of -1; here that is an empty text. */
  class Transport {
    var text: string
    var fields: nat
    var delimiter: string  // empty for none

    function Contents(): Output
      reads this
    {
      Output(text, fields)
    }

    constructor ()
      ensures Contents() == Output("", 0) && delimiter == ""
    {
      text, fields, delimiter := "", 0, "";
    }

    method MessageOpen()
      modifies this`text
      ensures text == ""
    {
      text := "";
    }

    method ResetFieldCount()
      modifies this`fields
      ensures fields == 0
    {
      fields := 0;
    }

    method MessageAppend(piece: string) returns (code: int)
      modifies this`text, this`fields
      ensures Reply(code, Contents()) == Append(old(Contents()), delimiter, piece)
    {
      if |piece| > Room(Contents()) { return -1; }
      if fields > 0 {
        if Room(Contents()) < |delimiter| { return -1; }
        text := text + delimiter;
      }
      text := text + piece;
      fields := fields + 1;
      code := |piece|;
    }

    method JsonExportValue(tag: string, value: string, room: nat, quotes: bool) returns (code: int)
      modifies this`text, this`fields
      ensures Reply(code, Contents()) == ExportValue(old(Contents()), delimiter, tag, value, room, quotes)
    {
      if room > Room(Contents()) {
        code := -1;
      } else if quotes {
        code := MessageAppend(Label(tag) + ("\"" + value + "\""));
      } else {
        code := MessageAppend(Label(tag) + value);
      }
    }

    method JsonExportOpen(tag: Option<string>) returns (code: int)
      modifies this`text, this`fields
      ensures Reply(code, Contents()) == ExportOpen(old(Contents()), delimiter, tag)
    {
      if Room(Contents()) < 2 { return -1; }
      code := MessageAppend((if tag.Some? then Label(tag.value) else "") + "{");
    }

    method JsonExportClose() returns (code: int)
      modifies this`text, this`fields
      ensures Reply(code, Contents()) == ExportClose(old(Contents()), delimiter)
    {
      if Room(Contents()) < 2 { return -1; }
      code := MessageAppend("}");
    }
  }
}
