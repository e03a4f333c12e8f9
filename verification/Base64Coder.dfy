/** The loops of the base64 encoder and decoder, over buffers of a size computed beforehand. A turn of
    either loop handles one group: up to three bytes and the four symbols for them. Where the original
    throws, on storing or reading outside a buffer, the methods return no buffer. */
module Base64Coder {
  import opened Basics
  import opened Buffers
  import opened Base64

  /** Up to three bytes from place `i` on. */
  function GroupAt(s: seq<byte>, i: nat): seq<byte>
    requires i <= |s|
  {
    s[i..i + Min(3, |s| - i)]
  }

  lemma GroupTurn(url: bool, s: seq<byte>, i: nat, done: seq<byte>)
    requires i < |s| && EncodeGroups(url, s) == done + EncodeGroups(url, s[i..])
    ensures 1 <= |GroupAt(s, i)| <= 3
    ensures var next := i + |GroupAt(s, i)|;
            EncodeGroups(url, s) == done + Symbols(url, Positions(GroupAt(s, i))) + EncodeGroups(url, s[next..])
  {
    var m := Min(3, |s| - i);
    assert s[i..][..m] == s[i..i + m] && s[i..][m..] == s[i + m..];
    AppendAssociates(done, Symbols(url, Positions(GroupAt(s, i))), EncodeGroups(url, s[i + m..]));
  }

  /** The four symbols of a group, from its bytes or from nothing where there are no more. */
  method FourSymbols(url: bool, input: array<byte>, from: nat) returns (symbols: seq<byte>, i: nat)
    requires from < input.Length
    ensures i == from + |GroupAt(input[..], from)|
    ensures 1 <= |GroupAt(input[..], from)| <= 3 && symbols == Symbols(url, Positions(GroupAt(input[..], from)))
  {
    i := from;
    var chr1, chr2, chr3 := None, None, None;
    if i < input.Length { chr1, i := Some(input[i] as nat), i + 1; }
    if i < input.Length { chr2, i := Some(input[i] as nat), i + 1; }
    if i < input.Length { chr3, i := Some(input[i] as nat), i + 1; }
    var enc1 := Bits(chr1) / 4;
    var enc2 := Bits(chr1) % 4 * 16 + Bits(chr2) / 16;
    var enc3 := Bits(chr2) % 16 * 4 + Bits(chr3) / 64;
    var enc4 := Bits(chr3) % 64;
    if chr2 == None {
      enc3, enc4 := 64, 64;
    } else if chr3 == None {
      enc4 := 64;
    }
    symbols := [Symbol(url, enc1), Symbol(url, enc2), Symbol(url, enc3), Symbol(url, enc4)];
    ghost var group := GroupAt(input[..], from);
    assert |group| == i - from && forall k :: 0 <= k < |group| ==> group[k] == input[from + k];
    assert Positions(group) == [enc1, enc2, enc3, enc4];
  }

  /** Shifting or masking what is no number gives zero. */
  function Bits(chr: Option<nat>): nat {
    if chr.Some? then chr.value else 0
  }

  /** `encode_any`; no result stands for the exception on empty input. */
  method EncodeAny(url: bool, input: array<byte>) returns (output: array?<byte>)
    ensures output == null <==> Encode(url, input[..]) == None
    ensures output != null ==> Encode(url, input[..]) == Some(output[..])
  {
    if input.Length == 0 { return null; }
    hide *;
    ghost var s := input[..];
    var out := NewBuffer(4 * ((input.Length + 2) / 3));
    EncodedLength(url, s);
    EncodeStarts(url, s);
    var i, j := 0, 0;
    while true
      invariant 0 <= i < input.Length && 0 <= j <= out.Length && fresh(out)
      invariant EncodeGroups(url, s) == out[..j] + EncodeGroups(url, s[i..])
      decreases input.Length - i
    {
      GroupTurn(url, s, i, out[..j]);
      var symbols, next := FourSymbols(url, input, i);
      i := next;
      SymbolsRoom(url, s, out[..j], symbols, s[i..]);
      PutAll(out, j, symbols);
      j := j + 4;
      if i >= input.Length { break; }
    }
    EncodeEnds(url, s, i, out[..j]);
    assert out[..j] == out[..];
    output := out;
  }

  /** Stores bytes from place `j` on. */
  method PutAll(out: array<byte>, j: nat, bytes: seq<byte>)
    requires j + |bytes| <= out.Length
    modifies out
    ensures out[..j + |bytes|] == old(out[..j]) + bytes
  {
    ghost var was := out[..];
    for k := 0 to |bytes|
      invariant forall x :: 0 <= x < j ==> out[x] == was[x]
      invariant forall x :: 0 <= x < k ==> out[j + x] == bytes[x]
    {
      out[j + k] := bytes[k];
    }
    assert out[..j] == was[..j];
  }

  lemma EncodeStarts(url: bool, s: seq<byte>)
    ensures EncodeGroups(url, s) == [] + EncodeGroups(url, s[0..])
    ensures s != [] ==> Encode(url, s) == Some(EncodeGroups(url, s))
  {
    assert s[0..] == s;
    AppendNothing(EncodeGroups(url, s));
  }

  lemma SymbolsRoom(url: bool, s: seq<byte>, done: seq<byte>, symbols: seq<byte>, rest: seq<byte>)
    requires EncodeGroups(url, s) == done + symbols + EncodeGroups(url, rest)
    ensures |done| + |symbols| <= |EncodeGroups(url, s)|
  {
  }

  lemma EncodeEnds(url: bool, s: seq<byte>, i: nat, done: seq<byte>)
    requires i == |s| && EncodeGroups(url, s) == done + EncodeGroups(url, s[i..])
    ensures EncodeGroups(url, s) == done
  {
    assert EncodeGroups(url, s[i..]) == [];
    AppendNothing(done);
  }

  /** One position: that of the next byte, of padding behind the end, or none when there is no byte. */
  function PositionAt(url: bool, s: seq<byte>, i: nat): Option<int> {
    if i < |s| then Some(IndexOf(url, s[i])) else if url then Some(64) else None
  }

  lemma ReadStep(url: bool, s: seq<byte>, i: nat, k: nat)
    requires k > 0
    ensures var enc, rest := PositionAt(url, s, i), Read(url, s, if i < |s| then i + 1 else i, k - 1);
            Read(url, s, i, k) == if enc == None || rest == None then None else Some([enc.value] + rest.value)
  {
    ReadLength(url, s, i, k - 1);
  }

  method NextPosition(url: bool, input: array<byte>, i: nat) returns (enc: Option<int>, next: nat)
    ensures enc == PositionAt(url, input[..], i) && next == if i < input.Length then i + 1 else i
  {
    if input.Length <= i {
      return if url then Some(64) else None, i;
    }
    return Some(IndexOf(url, input[i])), i + 1;
  }

  /** The four positions of one turn. */
  method FourPositions(url: bool, input: array<byte>, from: nat) returns (p: Option<seq<int>>, i: nat)
    requires from <= input.Length
    ensures p == Read(url, input[..], from, 4) && (p.Some? ==> |p.value| == 4)
    ensures i == if from + 4 <= input.Length then from + 4 else input.Length
  {
    ghost var s := input[..];
    var enc1, enc2, enc3, enc4;
    ReadStep(url, s, from, 4);
    enc1, i := NextPosition(url, input, from);
    ReadStep(url, s, i, 3);
    enc2, i := NextPosition(url, input, i);
    ReadStep(url, s, i, 2);
    enc3, i := NextPosition(url, input, i);
    ReadStep(url, s, i, 1);
    enc4, i := NextPosition(url, input, i);
    assert Read(url, s, i, 0) == Some([]);
    hide Read;
    hide PositionAt;
    if enc1 == None || enc2 == None || enc3 == None || enc4 == None { return None, i; }
    InFour(enc1.value, enc2.value, enc3.value, enc4.value);
    p := Some([enc1.value, enc2.value, enc3.value, enc4.value]);
  }

  lemma InFour(a: int, b: int, c: int, d: int)
    ensures [a] + ([b] + ([c] + ([d] + []))) == [a, b, c, d]
  {
  }

  /** `decode_any`; no result stands for the exception. */
  method DecodeAny(url: bool, input: array<byte>) returns (result: array?<byte>)
    ensures result == null <==> Decode(url, input[..]) == None
    ensures result != null ==> Decode(url, input[..]) == Some(result[..])
  {
    hide *;
    ghost var s := input[..];
    DecodeStarts(url, s);
    var output := NewBuffer((3 * input.Length + 3) / 4);
    ghost var goal := Decode(url, s);
    var i, j := 0, 0;
    assert output[..0] == [];
    while true
      invariant 0 <= i <= input.Length && 0 <= j <= output.Length && fresh(output)
      invariant goal == DecodeFrom(url, s, i, output[..j], output.Length)
      decreases input.Length - i
    {
      var p, next := FourPositions(url, input, i);
      DecodeTurn(url, s, i, output[..j], output.Length);
      if p == None { return null; }
      var bytes := Bytes(p.value);
      if j + |bytes| > output.Length { return null; }
      PutAll(output, j, bytes);
      j := j + |bytes|;
      i := next;
      if i >= input.Length { break; }
    }
    result := Front(output, j);
  }

  lemma DecodeStarts(url: bool, s: seq<byte>)
    ensures Decode(url, s) == DecodeFrom(url, s, 0, [], (3 * |s| + 3) / 4)
  {
  }

  lemma DecodeTurn(url: bool, s: seq<byte>, i: nat, out: seq<byte>, room: nat)
    ensures var p := Read(url, s, i, 4);
            (p.Some? ==> |p.value| == 4) &&
            DecodeFrom(url, s, i, out, room) ==
            if p == None then None
            else
              var more := out + Bytes(p.value);
              if |more| > room then None else if i + 4 < |s| then DecodeFrom(url, s, i + 4, more, room) else Some(more)
  {
    ReadLength(url, s, i, 4);
    hide Bytes;
    hide Read;
  }

  /** `range(0, j)` */
  method Front(output: array<byte>, j: nat) returns (view: array<byte>)
    requires j <= output.Length
    ensures view[..] == output[..j]
  {
    view := NewBuffer(j);
    CopyFrom(view, output, 0, 0);
  }
}
