/** A message sent piece by piece: the exchange steps of connection/connection.cpp. */
module Connection {
  import opened Json
  import opened JsonMessage
  import opened Transport

  /** A tagged value to send; a number is given by its printed text. */
  datatype Value =
    | Tagged(tag: string, text: string)
    | Sized(tag: string, text: string, room: nat)
    | Measured(tag: string, text: string)
    | Whole(tag: string, text: string)

  /** The room a value asks for, and whether it is quoted. */
  function RoomOf(v: Value): nat {
    match v
    case Tagged(_, _) => 0
    case Sized(_, _, room) => room
    case Measured(_, text) => |text|
    case Whole(_, _) => NUMBER_ROOM
  }

  const NUMBER_ROOM: nat := 1024

  predicate IsQuoted(v: Value) {
    v.Tagged? || v.Sized?
  }

  /** An item of a cache: its remote name, and what is sent for it. */
  datatype CacheItem = CacheItem(tag: string, text: string)

  /** The items of a cache are sent as a schema or as data, each asking for the size of the buffer
      that its text is in. */
  datatype Listing = Schema | Data

  function ItemRoom(listing: Listing): nat {
    if listing == Schema then 256 else 1024
  }

  function ValuesOf(listing: Listing, items: seq<CacheItem>): (r: seq<Value>)
    ensures |r| == |items|
    ensures forall k :: 0 <= k < |items| ==> r[k] == Sized(items[k].tag, items[k].text, ItemRoom(listing))
  {
    seq(|items|, k requires 0 <= k < |items| => Sized(items[k].tag, items[k].text, ItemRoom(listing)))
  }

  /** One argument of client_initiated. */
  datatype Call = Critical | Initiate | Continue | Put(value: Value) | PutList(listing: Listing, items: seq<CacheItem>)
                | Open(tag: string) | Close | Complete

  datatype Stage = Going | Failed | Completed

  datatype Sender = Sender(stage: Stage, out: Output, seqnum: nat)

  function Decimal(n: nat): string {
    if n < 10 then ['0' + n as char] else Decimal(n / 10) + ['0' + (n % 10) as char]
  }

  function After(s: Sender, r: Reply): Sender {
    if r.code < 0 then s.(stage := Failed, out := r.out) else s.(out := r.out)
  }

  function Reset(o: Output): Output {
    o.(fields := 0)
  }

  function Export(o: Output, delimiter: string, v: Value): Reply {
    ExportValue(o, delimiter, v.tag, v.text, RoomOf(v), IsQuoted(v))
  }

  /** Items that are refused are passed over. */
  function ExportList(o: Output, delimiter: string, vs: seq<Value>): Output
    decreases |vs|
  {
    if vs == [] then o else ExportList(Export(o, delimiter, vs[0]).out, delimiter, vs[1..])
  }

  /** One step. What the opening brace, the id and the last brace are answered is ignored. */
  function Do(s: Sender, delimiter: string, c: Call): Sender {
    match c
    case Critical => s
    case Continue => s
    case Initiate => s.(out := Reset(ExportOpen(Output("", 0), delimiter, None).out), seqnum := s.seqnum + 1)
    case Put(v) => After(s, Export(s.out, delimiter, v))
    case PutList(listing, items) => s.(out := ExportList(s.out, delimiter, ValuesOf(listing, items)))
    case Open(tag) => var t := After(s, ExportOpen(s.out, delimiter, Some(tag))); t.(out := Reset(t.out))
    case Close => After(s, ExportClose(Reset(s.out), delimiter))
    case Complete =>
      var numbered := ExportValue(s.out, delimiter, "id", Decimal(s.seqnum), NUMBER_ROOM, false).out;
      s.(stage := Completed, out := ExportClose(Reset(numbered), delimiter).out)
  }

  /** Steps until one fails or the message is complete. */
  function Run(s: Sender, delimiter: string, calls: seq<Call>): Sender
    decreases |calls|
  {
    if s.stage != Going || calls == [] then s else Run(Do(s, delimiter, calls[0]), delimiter, calls[1..])
  }

  class Exchange {
    const transport: Transport
    var seqnum: nat

    constructor (t: Transport)
      ensures transport == t && seqnum == 0
    {
      transport, seqnum := t, 0;
    }

    function AsSender(): Sender
      reads this, transport
    {
      Sender(Going, transport.Contents(), seqnum)
    }

    method ExchangeInitiate()
      modifies transport`text, transport`fields
      ensures transport.Contents() == Reset(ExportOpen(Output("", 0), transport.delimiter, None).out)
    {
      transport.MessageOpen();
      transport.ResetFieldCount();
      var _ := transport.JsonExportOpen(None);
      transport.ResetFieldCount();
    }

    method ExchangeComplete() returns (id: nat)
      modifies transport`text, transport`fields
      ensures id == seqnum && transport.Contents() == Do(old(AsSender()), transport.delimiter, Complete).out
    {
      var _ := transport.JsonExportValue("id", Decimal(seqnum), NUMBER_ROOM, false);
      id := seqnum;
      transport.ResetFieldCount();
      var _ := transport.JsonExportClose();
    }

    /** The loop over a cache that sends its schema. What the items are answered is ignored. */
    method ExchangeSchema(items: seq<CacheItem>) returns (status: int)
      modifies transport`text, transport`fields
      ensures status == |items|
      ensures transport.Contents() ==
                ExportList(old(transport.Contents()), transport.delimiter, ValuesOf(Schema, items))
    {
      ghost var vs := ValuesOf(Schema, items);
      status := 0;
      while status < |items|
        invariant 0 <= status <= |items| && transport.delimiter == old(transport.delimiter)
        invariant ExportList(transport.Contents(), transport.delimiter, vs[status..])
               == ExportList(old(transport.Contents()), transport.delimiter, vs)
      {
        assert vs[status..][0] == vs[status] && vs[status..][1..] == vs[status + 1..];
        var _ := transport.JsonExportValue(items[status].tag, items[status].text, 256, true);
        status := status + 1;
      }
    }

    /** The loop over a cache that sends its data. A refusal is answered -1, which its test for 0 does
        not see. */
    method ExchangeData(items: seq<CacheItem>) returns (code: int)
      modifies transport`text, transport`fields
      ensures code == 1
      ensures transport.Contents() == ExportList(old(transport.Contents()), transport.delimiter, ValuesOf(Data, items))
    {
      ghost var vs := ValuesOf(Data, items);
      for n := 0 to |items|
        invariant transport.delimiter == old(transport.delimiter)
        invariant ExportList(transport.Contents(), transport.delimiter, vs[n..])
               == ExportList(old(transport.Contents()), transport.delimiter, vs)
      {
        assert vs[n..][0] == vs[n] && vs[n..][1..] == vs[n + 1..];
        var status := transport.JsonExportValue(items[n].tag, items[n].text, 1024, true);
        if status == 0 { return 0; }
      }
      code := 1;
    }

    method ExchangeOpen(tag: string) returns (code: int)
      modifies transport`text, transport`fields
      ensures var r := ExportOpen(old(transport.Contents()), transport.delimiter, Some(tag));
              code == r.code && transport.Contents() == Reset(r.out)
    {
      code := transport.JsonExportOpen(Some(tag));
      transport.ResetFieldCount();
    }

    method ExchangeClose() returns (code: int)
      modifies transport`text, transport`fields
      ensures Reply(code, transport.Contents()) == ExportClose(Reset(old(transport.Contents())), transport.delimiter)
    {
      transport.ResetFieldCount();
      code := transport.JsonExportClose();
    }

    /** Sends a message. `taken` is the number of characters the network takes; the result is 1 when
        that is the whole of a completed message. A failed step is answered 0: the negative count
        that the source sets is overwritten, so its callers' test for a negative answer never
        succeeds, critical message or not. */
    method ClientInitiated(calls: seq<Call>, taken: nat) returns (code: int)
      requires calls != []
      modifies this`seqnum, transport`text, transport`fields
      ensures var s := Run(old(AsSender()), transport.delimiter, calls);
              && transport.Contents() == s.out && seqnum == s.seqnum
              && code == if s.stage == Completed && taken == |s.out.text| then 1 else 0
    {
      var critical, count, msgcount, stop, i := calls[0] == Critical, 0, 0, false, 0;
      ghost var s := AsSender();
      while !stop
        invariant 0 <= i <= |calls| && (!stop ==> i < |calls|) && msgcount >= 0
        invariant s.out == transport.Contents() && s.seqnum == seqnum && transport.delimiter == old(transport.delimiter)
        invariant Run(s, transport.delimiter, calls[i..]) == Run(old(AsSender()), transport.delimiter, calls)
        invariant stop <==> s.stage != Going || i == |calls|
        invariant s.stage == Completed ==> msgcount == 0 && count == 0
        invariant stop && s.stage != Completed ==> msgcount > 0
        decreases |calls| - i, !stop
      {
        msgcount := msgcount + 1;
        ghost var c := calls[i];
        s := Do(s, transport.delimiter, c);
        var status := 0;
        match calls[i] {
          case Critical => critical := true;
          case Continue =>
          case Initiate =>
            seqnum := seqnum + 1;
            ExchangeInitiate();
          case Put(v) => status := transport.JsonExportValue(v.tag, v.text, RoomOf(v), IsQuoted(v));
          case PutList(Schema, items) => status := ExchangeSchema(items);
          case PutList(Data, items) => status := ExchangeData(items);
          case Open(tag) => status := ExchangeOpen(tag);
          case Close => status := ExchangeClose();
          case Complete =>
            var _ := ExchangeComplete();
            msgcount, count, stop := 0, 0, true;
        }
        if status < 0 { count, stop := -msgcount, true; }
        assert calls[i..][1..] == calls[i + 1..];
        i := i + 1;
        if i == |calls| { stop := true; }
      }
      if msgcount != 0 { count := if msgcount > 0 then msgcount else -1; }
      if count == 0 {
        code := if taken == |transport.text| then 1 else 0;
      } else {
        code := if count < 0 then if critical then -1 else 0 else 0;
      }
    }
  }
}
