/** The constant tables of the client (tftppp.py lines 5-21): block size, default mode, the
    opcode table and the error-code table of RFC 1350. */
module Protocol {
  import opened Wrappers

  /** Payload bytes per DATA datagram; a shorter payload marks the last block. */
  const BLOCK_SIZE: nat := 512

  /** The transfer mode both requests carry. */
  const DEFAULT_TRANSFER_MODE: string := "octet"

  /** The five datagram kinds of RFC 1350. */
  datatype Opcode = RRQ | WRQ | DATA | ACK | ERROR

  /** The `OPCODE` table: the numeric code carried in the first two bytes of a datagram. */
  function Code(op: Opcode): (c: nat)
    ensures 1 <= c <= 5
  {
    match op
    case RRQ => 1
    case WRQ => 2
    case DATA => 3
    case ACK => 4
    case ERROR => 5
  }

  /** The reverse lookup of the `OPCODE` table: the kind of datagram a numeric code names. */
  function OpcodeOf(c: int): (r: Option<Opcode>)
    ensures r.Some? <==> 1 <= c <= 5
  {
    if c == 1 then Some(RRQ)
    else if c == 2 then Some(WRQ)
    else if c == 3 then Some(DATA)
    else if c == 4 then Some(ACK)
    else if c == 5 then Some(ERROR)
    else None
  }

  /** The `OPCODE` table is a one-to-one map onto 1..5: each opcode's code names that opcode
      again, and each code 1..5 is the code of the opcode it names. */
  lemma CodeRoundTrip(op: Opcode, c: int)
    ensures OpcodeOf(Code(op)) == Some(op)
    ensures 1 <= c <= 5 ==> Code(OpcodeOf(c).value) == c
  {
    match op
    case RRQ =>
    case WRQ =>
    case DATA =>
    case ACK =>
    case ERROR =>
  }

  /** The messages of the `ERROR_CODE` table, indexed by error code 0..7. */
  const ERROR_MESSAGES: seq<string> := [
    "Not defined, see error message (if any).",
    "File not found.",
    "Access violation.",
    "Disk full or allocation exceeded.",
    "Illegal TFTP operation.",
    "Unknown transfer ID.",
    "File already exists.",
    "No such user."
  ]

  /** The `ERROR_CODE` lookup. Python's dict lookup raises `KeyError` outside codes 0..7; that
      is `None` here. */
  function ErrorMessage(code: int): (r: Option<string>)
    ensures r.Some? <==> 0 <= code <= 7
  {
    if 0 <= code < |ERROR_MESSAGES| then Some(ERROR_MESSAGES[code]) else None
  }
}
