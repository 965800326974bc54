/** The tap command protocol: command words packed from an opcode, a tap id and,
    for configuration commands, a payload; and the register device they are written to. */
module Protocol {

  type Word = bv64

  const GET_WIDTH: Word := 0
  const GET_COUNT: Word := 1
  const GET_START: Word := 2
  const GET_DATA: Word := 3
  const SET_START: Word := 4
  const SET_STOP: Word := 5
  const SET_DEPTH: Word := 6

  /** A payload must fit in the 53 bits above the opcode and id fields. */
  const PAYLOAD_LIMIT: Word := 1 << 53

  /** A tap id: the manifest's ids are taken to fit the command word's 8-bit id field. */
  type TapId = bv8

  /** `(value << 11) | (id << 3) | op` in 64 bits: the opcode in bits 0-2, the tap id in
      bits 3-10, the payload from bit 11 up. Opcode and id can always be read back; the
      payload can when it fits in 53 bits, and otherwise loses its high bits. */
  function ConfigCommand(op: Word, id: TapId, value: Word): (w: Word)
    requires op < 8
    ensures w & 7 == op
    ensures (w >> 3) & 0xFF == id as Word
    ensures value < PAYLOAD_LIMIT ==> w >> 11 == value
  {
    (value << 11) | ((id as Word) << 3) | op
  }

  /** A payload of 53 bits or more keeps only its low 53 bits: the shift drops the rest. */
  lemma PayloadTruncated(op: Word, id: TapId, value: Word)
    requires op < 8
    ensures ConfigCommand(op, id, value) >> 11 == value & (PAYLOAD_LIMIT - 1)
  {
  }

  /** `(id << 3) | op`: a query command is a configuration command with a zero payload. */
  function Command(op: Word, id: TapId): (w: Word)
    requires op < 8
    ensures w == ConfigCommand(op, id, 0)
  {
    ((id as Word) << 3) | op
  }

  /** The depth command, computed as the source computes it: in 32 bits, then widened.
      The depth's top 11 bits are shifted out, so the payload is the depth modulo 2^21. */
  function DepthCommand(depth: bv32, id: TapId): (w: Word)
    ensures w == ConfigCommand(SET_DEPTH, id, (depth & 0x1F_FFFF) as Word)
    ensures depth < 1 << 21 ==> w == ConfigCommand(SET_DEPTH, id, depth as Word)
  {
    ((depth << 11) | ((id as bv32) << 3) | 6) as Word
  }

  datatype Fields = Fields(op: Word, id: TapId, value: Word)

  /** Splits a word into its three fields; packing the fields again gives back the word. */
  function Decode(w: Word): (f: Fields)
    ensures f.op < 8 && f.value < PAYLOAD_LIMIT
    ensures ConfigCommand(f.op, f.id, f.value) == w
  {
    Fields(w & 7, ((w >> 3) & 0xFF) as TapId, w >> 11)
  }

  /** Decoding a packed command gives back the fields it was packed from. */
  lemma DecodeConfigCommand(op: Word, id: TapId, value: Word)
    requires op < 8 && value < PAYLOAD_LIMIT
    ensures Decode(ConfigCommand(op, id, value)) == Fields(op, id, value)
  {
  }

  /** `k` copies of the command word `c`: the log of `k` identical commands. */
  function Repeat(c: Word, k: nat): (r: seq<Word>)
    ensures |r| == k && forall i :: 0 <= i < k ==> r[i] == c
  {
    if k == 0 then [] else Repeat(c, k - 1) + [c]
  }

  /** A nonzero status returned by a failing register access. */
  type ErrCode = c: int | c != 0 witness 1

  /** The register device behind the injected write/read callbacks. Writes are logged;
      reads answer from a queue of response words. A failing transport fails every access
      with `failCode`; a read with no response left fails the same way. */
  class Device {
    var responses: seq<Word>
    var written: seq<Word>
    const failing: bool
    const failCode: ErrCode

    constructor (responses: seq<Word>, failing: bool, failCode: ErrCode)
      ensures this.responses == responses && written == []
      ensures this.failing == failing && this.failCode == failCode
    {
      this.responses := responses;
      this.written := [];
      this.failing := failing;
      this.failCode := failCode;
    }

    /** registerWrite: logs the command word unless the transport fails. */
    method Write(w: Word) returns (err: int)
      modifies this
      ensures err == (if failing then failCode else 0)
      ensures written == (if failing then old(written) else old(written) + [w])
      ensures responses == old(responses)
    {
      if failing {
        err := failCode;
      } else {
        written := written + [w];
        err := 0;
      }
    }

    /** registerRead: takes the next response word, if there is one. */
    method Read() returns (err: int, w: Word)
      modifies this
      ensures err == (if failing || old(responses) == [] then failCode else 0)
      ensures err == 0 ==> w == old(responses)[0] && responses == old(responses)[1..]
      ensures err != 0 ==> responses == old(responses)
      ensures written == old(written)
    {
      if failing || responses == [] {
        err, w := failCode, 0;
      } else {
        err, w := 0, responses[0];
        responses := responses[1..];
      }
    }

    /** One command exchange as the source issues it: write the command, then read the
        response, each step checked and the first failure returned. */
    method Query(cmd: Word) returns (err: int, w: Word)
      modifies this
      ensures err == 0 <==> !failing && old(responses) != []
      ensures err != 0 ==> err == failCode && responses == old(responses)
      ensures err == 0 ==> w == old(responses)[0] && responses == old(responses)[1..]
      ensures written == (if failing then old(written) else old(written) + [cmd])
    {
      w := 0;
      err := Write(cmd);
      if err != 0 {
        return;
      }
      err, w := Read();
    }
  }
}
