/** HuffmanDecompressor: reads one string back from the packed bits by
    walking the node array of the compressor from its last pair, a clear
    bit taking a pair's left slot and a set bit its right one, until a slot
    names a char (-1 - char); char NUL ends the string. */
module HuffmanDecompression {
  import opened Wrappers
  import opened Primitives
  import opened HuffmanBits

  /** RootNode: the last pair of the array, -1 when there is none. */
  function Root(nodes: seq<int>): (nid: int)
    ensures nid >= -1
    ensures nid >= 0 <==> |nodes| >= 2
  {
    |nodes| / 2 - 1
  }

  /** `(char)(-1 - nid)`: the low 16 bits of -1 - nid. */
  function CharOf(nid: int): Char16
  {
    (-1 - nid) % 0x1_0000
  }

  /** The smallest slot value the decoder reads as an inner node. The
      compressor numbers inner nodes from 0, so 0 is the corrected
      threshold; `CharValue` as written tests `nid > 0`. */
  const FirstInner: nat := 0
  const FirstInnerAsWritten: nat := 1

  /** The inner loop of Decompress: from node nid at bit pos, one bit per
      step while bits remain and the node is inner; it ends on the node it
      reached and the next bit. A pair past the end of the array is an
      IndexOutOfRange fault. */
  function Walk(nodes: seq<int>, data: seq<byte>, first: nat, nid: int, pos: nat): (r: Result<(int, nat)>)
    ensures nid < first || pos >= |data| * 8 ==> r == Ok((nid, pos))
    ensures r.Ok? ==> pos <= r.value.1
    ensures r.Ok? && r.value.0 >= first ==> r.value.1 >= |data| * 8
    ensures r.Ok? && nid >= first && pos < |data| * 8 ==> r.value.1 > pos
    decreases |data| * 8 - pos
  {
    if pos < |data| * 8 && nid >= first then
      var slot := 2 * nid + if BitAt(data, pos) then 1 else 0;
      if slot < |nodes| then Walk(nodes, data, first, nodes[slot], pos + 1) else Err(IndexOutOfRange)
    else
      Ok((nid, pos))
  }

  /** `node.CharValue ?? (char)0`: the char a walk landed on; NUL when it
      ran out of bits on an inner node. */
  function Landed(nid: int, first: nat): Char16
  {
    if nid >= first then NUL else CharOf(nid)
  }

  /** Decompress with inner nodes numbered from 0: the chars of the string
      whose bits start at pos, up to its NUL or the end of the bits. */
  function Decode(nodes: seq<int>, data: seq<byte>, pos: nat): (r: Result<Str>)
    ensures r.Ok? ==> NUL !in r.value
    ensures r.Ok? && pos <= |data| * 8 ==> |r.value| <= |data| * 8 - pos
    decreases |data| * 8 - pos
  {
    if pos >= |data| * 8 then Ok([])
    else
      match Walk(nodes, data, FirstInner, Root(nodes), pos)
      case Err(e) => Err(e)
      case Ok((nid, next)) =>
        var ch := Landed(nid, FirstInner);
        if ch == NUL then Ok([])
        else
          match Decode(nodes, data, next)
          case Err(e) => Err(e)
          case Ok(rest) => Ok([ch] + rest)
  }

  /** Decompress as written, whose CharValue reads slot 0 as the char
      U+FFFF: None when it has not stopped within fuel strings' worth of
      walks. */
  function DecodeAsWritten(nodes: seq<int>, data: seq<byte>, pos: nat, fuel: nat): (r: Option<Result<Str>>)
    ensures r.Some? && r.value.Ok? ==> NUL !in r.value.value
    decreases fuel
  {
    if fuel == 0 then None
    else if pos >= |data| * 8 then Some(Ok([]))
    else
      match Walk(nodes, data, FirstInnerAsWritten, Root(nodes), pos)
      case Err(e) => Some(Err(e))
      case Ok((nid, next)) =>
        var ch := Landed(nid, FirstInnerAsWritten);
        if ch == NUL then Some(Ok([]))
        else
          match DecodeAsWritten(nodes, data, next, fuel - 1)
          case None => None
          case Some(Err(e)) => Some(Err(e))
          case Some(Ok(rest)) => Some(Ok([ch] + rest))
  }

  /** An array with no whole pair has root -1, which reads as the char NUL:
      the string is empty wherever it starts. */
  lemma NoPairsDecodeEmpty(nodes: seq<int>, data: seq<byte>, pos: nat)
    requires |nodes| < 2
    ensures Decode(nodes, data, pos) == Ok([])
    ensures DecodeAsWritten(nodes, data, pos, 1) == Some(Ok([]))
  {
  }

  /** With a one-pair array the root is slot 0, which the decoder as
      written takes for the char U+FFFF without reading a bit: it never
      stops, however much fuel it is given. */
  lemma {:induction false} OnePairNeverStops(nodes: seq<int>, data: seq<byte>, pos: nat, fuel: nat)
    requires |nodes| == 2 && pos < |data| * 8
    ensures DecodeAsWritten(nodes, data, pos, fuel) == None
  {
    if fuel > 0 {
      assert Walk(nodes, data, FirstInnerAsWritten, Root(nodes), pos) == Ok((0, pos));
      assert Landed(0, FirstInnerAsWritten) == 0xFFFF;
      OnePairNeverStops(nodes, data, pos, fuel - 1);
    }
  }

  /** No slot of the array is 0. */
  predicate NoZeroSlot(nodes: seq<int>)
  {
    forall i :: 0 <= i < |nodes| ==> nodes[i] != 0
  }

  /** Away from slot 0 the two thresholds walk alike, and never land on
      slot 0. */
  lemma {:induction false} WalkAgrees(nodes: seq<int>, data: seq<byte>, nid: int, pos: nat)
    requires NoZeroSlot(nodes) && nid != 0
    ensures Walk(nodes, data, FirstInnerAsWritten, nid, pos) == Walk(nodes, data, FirstInner, nid, pos)
    ensures Walk(nodes, data, FirstInner, nid, pos).Ok? ==> Walk(nodes, data, FirstInner, nid, pos).value.0 != 0
    decreases |data| * 8 - pos
  {
    if pos < |data| * 8 && nid > 0 {
      var slot := 2 * nid + if BitAt(data, pos) then 1 else 0;
      if slot < |nodes| {
        WalkAgrees(nodes, data, nodes[slot], pos + 1);
      }
    }
  }

  /** When the root is not slot 0 and no slot is 0, the decoder as written
      stops, given one walk per bit left, with the corrected decoder's
      result. */
  lemma {:induction false} AsWrittenAgrees(nodes: seq<int>, data: seq<byte>, pos: nat, fuel: nat)
    requires NoZeroSlot(nodes) && Root(nodes) != 0
    requires 0 < fuel && |data| * 8 - pos < fuel
    ensures DecodeAsWritten(nodes, data, pos, fuel) == Some(Decode(nodes, data, pos))
    decreases |data| * 8 - pos
  {
    if pos < |data| * 8 {
      WalkAgrees(nodes, data, Root(nodes), pos);
      var w := Walk(nodes, data, FirstInner, Root(nodes), pos);
      if w.Ok? {
        var (nid, next) := w.value;
        assert nid != 0;
        var ch := Landed(nid, FirstInner);
        assert Landed(nid, FirstInnerAsWritten) == ch;
        if ch != NUL {
          assert next > pos;
          AsWrittenAgrees(nodes, data, next, fuel - 1);
          var rest := Decode(nodes, data, next);
          assert Decode(nodes, data, pos) == if rest.Ok? then Ok([ch] + rest.value) else rest;
        }
      }
    }
  }

  /** The slot-0 counterexample: for the strings ["ab"] the compressor
      stores the pairs (-98, -99) and (-1, 0) and the single byte 13 (a's
      code 10, b's 11, NUL's 0, low bit first). The decoder as written reads
      the root's right slot 0 as U+FFFF and returns that one char; the
      corrected decoder returns "ab". */
  lemma SlotZeroMisread()
    ensures DecodeAsWritten([-98, -99, -1, 0], [13], 0, 3) == Some(Ok([0xFFFF]))
    ensures Decode([-98, -99, -1, 0], [13], 0) == Ok([97, 98])
  {
    var nodes: seq<int> := [-98, -99, -1, 0];
    var data: seq<byte> := [13];
    BitsOf13();
    assert Walk(nodes, data, FirstInnerAsWritten, 1, 0) == Ok((0, 1));
    assert Walk(nodes, data, FirstInnerAsWritten, 1, 1) == Ok((-1, 2));
    assert DecodeAsWritten(nodes, data, 1, 2) == Some(Ok([]));
    assert [0xFFFF] + [] == [0xFFFF];
    assert Walk(nodes, data, FirstInner, 0, 1) == Ok((-98, 2));
    assert Walk(nodes, data, FirstInner, 1, 0) == Ok((-98, 2));
    assert Walk(nodes, data, FirstInner, 0, 3) == Ok((-99, 4));
    assert Walk(nodes, data, FirstInner, 1, 2) == Ok((-99, 4));
    assert Walk(nodes, data, FirstInner, 1, 4) == Ok((-1, 5));
    assert Decode(nodes, data, 4) == Ok([]);
    assert [98] + [] == [98];
    assert [97] + [98] == [97, 98];
    assert Decode(nodes, data, 2) == Ok([98]);
  }

  /** The byte 13 holds the bits 1, 0, 1, 1, 0, ... low bit first. */
  lemma BitsOf13()
    ensures BitAt([13], 0) && !BitAt([13], 1) && BitAt([13], 2) && BitAt([13], 3)
    ensures !BitAt([13], 4) && !BitAt([13], 5)
  {
  }

  /** The result of Decompress so far, ahead of what the rest of the bits
      decode to. */
  function Prefixed(sb: Str, r: Result<Str>): Result<Str>
  {
    match r
    case Ok(s) => Ok(sb + s)
    case Err(e) => Err(e)
  }

  class HuffmanDecompressor {
    /** _data: the node array, two slots per inner node. */
    const nodes: seq<int>

    constructor (data: seq<int>)
      ensures nodes == data
    {
      nodes := data;
    }

    /** Decompress: the string whose bits start at offset, read one walk
        from the root per char. */
    method Decompress(cmpData: seq<byte>, offset: nat) returns (r: Result<Str>)
      ensures r == Decode(nodes, cmpData, offset)
    {
      var sb: Str := [];
      var end := |cmpData| * 8;
      var pos := offset;
      ghost var whole := Decode(nodes, cmpData, offset);
      assert whole.Ok? ==> [] + whole.value == whole.value;
      while pos < end
        invariant Decode(nodes, cmpData, offset) == Prefixed(sb, Decode(nodes, cmpData, pos))
        decreases end - pos
      {
        ghost var start := pos;
        var node := Root(nodes);
        while pos < end && node >= FirstInner
          invariant start <= pos
          invariant Walk(nodes, cmpData, FirstInner, Root(nodes), start) == Walk(nodes, cmpData, FirstInner, node, pos)
          decreases end - pos
        {
          var slot := 2 * node + if BitAt(cmpData, pos) then 1 else 0;
          if slot >= |nodes| {
            return Err(IndexOutOfRange);
          }
          node := nodes[slot];
          pos := pos + 1;
        }
        var ch := Landed(node, FirstInner);
        if ch == NUL {
          assert Decode(nodes, cmpData, start) == Ok([]);
          break;
        }
        ghost var rest := Decode(nodes, cmpData, pos);
        assert Decode(nodes, cmpData, start) == if rest.Ok? then Ok([ch] + rest.value) else rest;
        if rest.Ok? {
          assert sb + ([ch] + rest.value) == sb + [ch] + rest.value;
        }
        sb := sb + [ch];
      }
      assert sb + [] == sb;
      return Ok(sb);
    }
  }
}
