/** The bytes the library and its privileged helper exchange: commands, and replies. */
module HelperProtocol {
  import opened Words

  // ---- little-endian words ----

  function Le32(v: u32): (b: seq<u8>)
    ensures |b| == 4
  {
    [v % 0x100, v / 0x100 % 0x100, v / 0x1_0000 % 0x100, v / 0x100_0000]
  }

  function WordOf(b: seq<u8>): (v: u32)
    requires |b| == 4
  {
    var b0: int, b1: int, b2: int, b3: int := b[0], b[1], b[2], b[3];
    b0 + b1 * 0x100 + b2 * 0x1_0000 + b3 * 0x100_0000
  }

  lemma WordRoundTrip(v: u32)
    ensures WordOf(Le32(v)) == v
  {
    var h := v / 0x1_0000;
    assert v / 0x100 / 0x100 == h && h / 0x100 == v / 0x100_0000;
    assert v == v % 0x100 + (v / 0x100 % 0x100) * 0x100 + h * 0x1_0000;
  }

  function Encode(ws: seq<u32>): (b: seq<u8>)
    ensures |b| == 4 * |ws|
  {
    if ws == [] then [] else Le32(ws[0]) + Encode(ws[1..])
  }

  function Decode(b: seq<u8>): (ws: seq<u32>)
    requires |b| % 4 == 0
    ensures 4 * |ws| == |b|
  {
    if b == [] then [] else [WordOf(b[..4])] + Decode(b[4..])
  }

  lemma {:induction false} DecodeEncode(ws: seq<u32>)
    ensures Decode(Encode(ws)) == ws
  {
    if ws != [] {
      var b := Encode(ws);
      assert b[..4] == Le32(ws[0]) && b[4..] == Encode(ws[1..]);
      WordRoundTrip(ws[0]);
      DecodeEncode(ws[1..]);
    }
  }

  // ---- commands ----

  const MAGIC: u32 := 0x544D5244
  const VERSION := 1
  const CMD_BYTES := 16

  const CMD_GRAB: u16 := 0x01
  const CMD_GET_CURSOR: u16 := 0x02
  const CMD_GET_CURSOR2: u16 := 0x03
  const CMD_QUIT: u16 := 0xFF

  datatype Command = Command(magic: u32, version: u16, kind: u16, length: u32, crtc: u32)

  function WireCmd(kind: u16, crtc: u32): (c: Command) {
    Command(MAGIC, VERSION, kind, CMD_BYTES, crtc)
  }

  /** The gate at the head of the command loop; an older helper does not know CMD_GET_CURSOR2. */
  predicate CmdValid(c: Command, knowsCursor2: bool) {
    && c.magic == MAGIC && c.version == VERSION && c.length == CMD_BYTES
    && (c.kind == CMD_GET_CURSOR2 ==> knowsCursor2)
    && c.kind in {CMD_GRAB, CMD_GET_CURSOR, CMD_GET_CURSOR2, CMD_QUIT}
  }

  /** Which commands are served, in numbers. */
  lemma ServedExactly(c: Command, knowsCursor2: bool)
    ensures CmdValid(c, knowsCursor2) <==>
            && c.magic == 0x544D_5244 && c.version == 1 && c.length == 16
            && (c.kind in {1, 2, 0xFF} || (c.kind == 3 && knowsCursor2))
  {}

  /** Version and type share the second word of the frame. */
  function CmdBytes(c: Command): (b: seq<u8>)
    ensures |b| == CMD_BYTES
  {
    Encode([c.magic, c.version + c.kind * 0x1_0000, c.length, c.crtc])
  }

  function CmdFrom(b: seq<u8>): (c: Command)
    requires |b| == CMD_BYTES
  {
    var ws := Decode(b);
    Command(ws[0], ws[1] % 0x1_0000, ws[1] / 0x1_0000, ws[2], ws[3])
  }

  lemma CmdRoundTrip(c: Command)
    ensures CmdFrom(CmdBytes(c)) == c
  {
    var version: int, kind: int := c.version, c.kind;
    DecodeEncode([c.magic, version + kind * 0x1_0000, c.length, c.crtc]);
    assert (version + kind * 0x1_0000) % 0x1_0000 == version && (version + kind * 0x1_0000) / 0x1_0000 == kind;
  }

  /** A command on the wire, byte by byte: "DRMT", version, kind, length and display, little-endian. */
  lemma CmdFrame(kind: u16, crtc: u32)
    ensures CmdBytes(WireCmd(kind, crtc)) ==
            [0x44, 0x52, 0x4D, 0x54, 1, 0, kind % 0x100, kind / 0x100, 16, 0, 0, 0,
             crtc % 0x100, crtc / 0x100 % 0x100, crtc / 0x1_0000 % 0x100, crtc / 0x100_0000]
  {
    var k: int := kind;
    var w := 1 + k * 0x1_0000;
    assert w % 0x100 == 1 && w / 0x100 % 0x100 == 0 && w / 0x1_0000 == k && w / 0x100_0000 == k / 0x100;
    assert Encode([crtc]) == Le32(crtc) + [];
    assert Encode([16, crtc]) == Le32(16) + Encode([crtc]);
    assert Encode([w, 16, crtc]) == Le32(w) + Encode([16, crtc]);
    assert Encode([MAGIC, w, 16, crtc]) == Le32(MAGIC) + Encode([w, 16, crtc]);
  }

  // ---- replies ----

  const META_WORDS := 16          // helper_grab_wire_t: 64 bytes
  const META_BYTES := 64
  const META_SIZE := 5            // data_size
  const META_FLAGS := 12

  const CURSOR_WORDS := 8         // helper_cursor_wire_t: 32 bytes
  const CURSOR_VISIBLE := 6
  const CURSOR_SIZE := 7
  const CURSOR_HOT := 8           // the one word helper_cursor_wire2_t adds
  const CURSOR_MAX := 256 * 256 * 4

  predicate HasDmabuf(flags: u32) { flags % 2 == 1 }

  /** A reply: a block of words, then payload bytes. */
  datatype Reply = Reply(meta: seq<u32>, payload: seq<u8>)
  {
    function Bytes(): (b: seq<u8>) { Encode(meta) + payload }

    /** The error, descriptor and pixel shapes of grab_and_send and send_error. */
    ghost predicate AnswersGrab() {
      && |meta| == 16
      && if meta[12] % 2 == 1 then meta[5] == 0 && payload == []
         else meta[5] == |payload|
    }

    /** Either shape of cursor_and_send: the pixels follow when there are any. */
    ghost predicate AnswersCursor(extended: bool) {
      && |meta| == (if extended then 9 else 8)
      && meta[7] == |payload| && (meta[6] == 0 ==> payload == [])
    }

    ghost predicate Answers(kind: u16) {
      if kind == CMD_GRAB then AnswersGrab()
      else if kind == CMD_GET_CURSOR then AnswersCursor(false)
      else kind == CMD_GET_CURSOR2 && AnswersCursor(true)
    }
  }

  /** Reading the words back from the head of a reply. */
  lemma MetaOf(r: Reply, b: seq<u8>)
    requires b == r.Bytes()[..4 * |r.meta|]
    ensures |b| % 4 == 0 && Decode(b) == r.meta && r.Bytes()[4 * |r.meta|..] == r.payload
  {
    assert b == Encode(r.meta);
    DecodeEncode(r.meta);
  }
}
