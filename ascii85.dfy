/** The `ascii85` codec: Adobe Ascii85 (section 7.4.3 of ISO 32000-1, the
    ASCII85Decode filter) without the `<~` `~>` delimiters. Four bytes are
    read as a big-endian 32-bit word and written as five base-85 digits
    `!`..`u`; a zero word is written `z`. The decoder also accepts the btoa
    4.2 shorthand `y` for four spaces. */
module Ascii85 {
  import opened Common
  import opened Text
  import opened Arith
  import opened Radix
  import opened Blocks

  /** The largest 32-bit word. */
  const MaxWord: nat := 4294967295

  /** `bs - ((n % bs) or bs)`: what makes `n` a multiple of `bs`. */
  function Padding(n: nat, bs: nat): (p: nat)
    requires bs > 0
    ensures p < bs && (n + p) % bs == 0
    ensures p == 0 <==> n % bs == 0
  {
    var r := n % bs;
    DivMod(n, bs);
    var p := bs - (if r != 0 then r else bs);
    if p != 0 then
      assert n + p == bs * (n / bs + 1);
      ModOfMultiple(n / bs + 1, bs);
      p
    else p
  }

  /** `unpack(">I", block)[0]`: the big-endian value of the bytes. */
  function Word(block: Bytes): (w: nat)
    ensures w < Pow(256, |block|)
  {
    ValueBound(block, 256, 0);
    Value(block, 256, 0)
  }

  /** `pack(">I", data)`: the four big-endian bytes of a word. */
  function Pack(data: nat): (r: Bytes)
    ensures |r| == 4
  {
    Digits(data, 4, 256, 0)
  }

  /** The five characters of a word, most significant digit first. */
  function GroupChars(v: nat): Bytes
  {
    Digits(v, 5, 85, 33)
  }

  /** The value the decoder gives five characters. */
  function GroupValue(block: Bytes): int
  {
    Value(block, 85, 33)
  }

  /** The characters `chr_block` collects: the `n` low base-85 digits of
      `v`, least significant first. */
  function LowFirst(v: nat, n: nat): (r: Bytes)
    ensures |r| == n
    ensures forall i | 0 <= i < n :: '!' <= r[i] <= 'u'
  {
    if n == 0 then [] else [(v % 85 + 33) as char] + LowFirst(v / 85, n - 1)
  }

  /** One padded input block as the encoder writes it. */
  function EncodeGroup(block: Bytes): Bytes
  {
    var start := Word(block);
    if start == 0 then "z" else GroupChars(start)
  }

  function EncodeGroups(blocks: seq<Bytes>): Bytes
  {
    Flatten(seq(|blocks|, i requires 0 <= i < |blocks| => EncodeGroup(blocks[i])))
  }

  /** The NUL padding that fills the last block. */
  function PaddedInput(input: Bytes): (padded: Bytes)
    ensures |padded| % 4 == 0
  {
    input + Repeat<Byte>('\0', Padding(|input|, 4))
  }

  /** What `ascii85_encode` returns: the blocks' characters less as many
      trailing characters as there were padding bytes, and the padded
      length. */
  function Encoded(input: Bytes): (r: (Bytes, nat))
    ensures r.1 % 4 == 0 && |input| <= r.1 < |input| + 4
  {
    var padding := Padding(|input|, 4);
    var padded := PaddedInput(input);
    var output := EncodeGroups(Chunks(padded, 4));
    (if padding != 0 then DropLast(output, padding) else output, |padded|)
  }

  /** The last `len % 4` input bytes, the ones the padding completes, are
      all NUL: the padded last block is then written `z`, and dropping the
      padding characters cuts into it. */
  predicate ZeroTail(input: Bytes)
  {
    |input| % 4 != 0 && forall i | |input| - |input| % 4 <= i < |input| :: input[i] == '\0'
  }

  /** The encoder as Ascii85 intends it: `z` stands only for a whole block
      of input, and a padded last block is written in digits before the
      padding characters are dropped. */
  function EncodedCorrected(input: Bytes): (Bytes, nat)
  {
    var padding := Padding(|input|, 4);
    var padded := PaddedInput(input);
    var blocks := Chunks(padded, 4);
    if padding == 0 then (EncodeGroups(blocks), |padded|)
    else
      ChunksProperties(padded, 4);
      var last := blocks[|blocks| - 1];
      (EncodeGroups(blocks[..|blocks| - 1]) + GroupChars(Word(last))[..5 - padding], |padded|)
  }

  /** `ascii85_encode`: one block at a time, five digits per non-zero
      block, collected least significant first and then reversed. */
  method Encode(input: Bytes) returns (output: Bytes, consumed: nat)
    ensures (output, consumed) == Encoded(input)
  {
    var padding := Padding(|input|, 4);
    var padded: Bytes := input + Repeat<Byte>('\0', padding);
    output := [];
    var blocks := SplitBlocks<Byte>(padded, 4);
    var groups := blocks.value;
    assert groups == Chunks(padded, 4);
    for k := 0 to |groups|
      invariant output == EncodeGroups(groups[..k])
    {
      EncodeGroupsAppend(groups[..k], groups[k]);
      assert groups[..k + 1] == groups[..k] + [groups[k]];
      var chars := EncodeBlock(groups[k]);
      output := output + chars;
    }
    assert groups[..|groups|] == groups;
    if padding != 0 {
      output := DropLast(output, padding);
    }
    consumed := |padded|;
  }

  /** The body of the encoder's block loop: `z` for a zero word, else the
      inner loop's digits, reversed. */
  method EncodeBlock(block: Bytes) returns (chars: Bytes)
    ensures chars == EncodeGroup(block)
  {
    var start := Word(block);
    if start == 0 {
      chars := "z";
    } else {
      var chrBlock := LowDigits(start);
      ReverseLowFirst(start, 5);
      chars := Reverse(chrBlock);
    }
  }

  /** The inner loop of the encoder: the five base-85 digits of `start`,
      least significant first. */
  method LowDigits(start: nat) returns (chrBlock: Bytes)
    ensures chrBlock == LowFirst(start, 5)
  {
    DivMod(start, 85);
    var quot: nat, rem: nat := start / 85, start % 85;
    chrBlock := [(rem + 33) as char];
    for i := 0 to 4
      invariant chrBlock + LowFirst(quot, 4 - i) == LowFirst(start, 5)
    {
      DivMod(quot, 85);
      assert LowFirst(quot, 4 - i) == [(quot % 85 + 33) as char] + LowFirst(quot / 85, 3 - i);
      quot, rem := quot / 85, quot % 85;
      chrBlock := chrBlock + [(rem + 33) as char];
    }
    assert chrBlock + [] == chrBlock;
  }

  // ---------------------------------------------------------------------
  // Decoding

  /** Each piece of `s.split(c)` but the last is a whole number of
      five-character groups. */
  function Aligned(s: Bytes, c: Byte): (r: bool)
    ensures c !in s ==> r
  {
    var parts := Split(s, c);
    assert c !in s ==> parts == [s] by {
      if c !in s { SplitAbsent(s, c); }
    }
    forall i | 0 <= i < |parts| - 1 :: |parts[i]| % 5 == 0
  }

  predicate InAlphabet(c: Byte)
  {
    '!' <= c <= 'u'
  }

  /** The characters in `!`..`u`, in order: what the regular expression
      `([!-u]*)` finds. */
  function KeepAlphabet(s: Bytes): (r: Bytes)
    ensures |r| <= |s|
    ensures forall i | 0 <= i < |r| :: InAlphabet(r[i])
    ensures (forall i | 0 <= i < |s| :: InAlphabet(s[i])) ==> r == s
  {
    if s == [] then []
    else
      var rest := KeepAlphabet(s[1..]);
      assert (forall i | 0 <= i < |s| :: InAlphabet(s[i])) ==>
               (forall i | 0 <= i < |s[1..]| :: InAlphabet(s[1..][i]));
      if InAlphabet(s[0]) then
        assert s == [s[0]] + s[1..];
        [s[0]] + rest
      else rest
  }

  /** The shorthands written out: `z` is five `!`, `y` is `+<VdL`. */
  function Expand(s: Bytes): (r: Bytes)
    ensures 'y' !in r && 'z' !in r
    ensures 'y' !in s && 'z' !in s ==> r == s
  {
    var zs := ReplaceAll<Byte>(s, "z", "!!!!!");
    ReplaceCharRemoves<Byte>(s, 'z', "!!!!!");
    ReplaceCharRemoves<Byte>(zs, 'y', "+<VdL");
    ReplaceCharKeepsAbsent<Byte>(zs, 'y', "+<VdL", 'z');
    assert 'y' !in s && 'z' !in s ==> ReplaceAll<Byte>(zs, "y", "+<VdL") == s by {
      if 'y' !in s && 'z' !in s {
        ReplaceCharAbsent<Byte>(s, 'z', "!!!!!");
        ReplaceCharAbsent<Byte>(s, 'y', "+<VdL");
      }
    }
    ReplaceAll<Byte>(zs, "y", "+<VdL")
  }

  /** The decoder's input once expanded, filtered and padded with `u`. */
  function Prepared(input: Bytes): (padded: Bytes)
    ensures |padded| % 5 == 0
  {
    var filtered := KeepAlphabet(Expand(input));
    filtered + Repeat<Byte>('u', Padding(|filtered|, 5))
  }

  /** The words of the groups, packed, failing on the first group whose value
      is not a 32-bit word. */
  function DecodeGroups(groups: seq<Bytes>): (r: Result<Bytes>)
    ensures r.Success? <==> forall i | 0 <= i < |groups| :: 0 <= GroupValue(groups[i]) <= MaxWord
    ensures r.Success? ==> |r.value| == 4 * |groups|
    ensures r.Failure? ==> exists i | 0 <= i < |groups| ::
              !(0 <= GroupValue(groups[i]) <= MaxWord) && r.error == InvalidBlock(groups[i])
  {
    if groups == [] then Success([])
    else
      var data := GroupValue(groups[0]);
      if !(0 <= data <= MaxWord) then Failure(InvalidBlock(groups[0]))
      else
        match DecodeGroups(groups[1..])
        case Failure(e) =>
          assert exists i | 0 <= i < |groups| ::
                   !(0 <= GroupValue(groups[i]) <= MaxWord) && e == InvalidBlock(groups[i]) by {
            var k :| 0 <= k < |groups[1..]| && !(0 <= GroupValue(groups[1..][k]) <= MaxWord) &&
                     e == InvalidBlock(groups[1..][k]);
            assert groups[k + 1] == groups[1..][k];
          }
          Failure(e)
        case Success(rest) =>
          assert forall i | 0 <= i < |groups| :: 0 <= GroupValue(groups[i]) <= MaxWord by {
            forall i | 0 <= i < |groups| ensures 0 <= GroupValue(groups[i]) <= MaxWord {
              if i > 0 { assert groups[i] == groups[1..][i - 1]; }
            }
          }
          Success(Pack(data) + rest)
  }

  /** What `ascii85_decode` returns: it fails when a piece before a `y`,
      or else before a `z`, is not a whole number of groups, or when a
      group is not a word; otherwise the packed words less as many bytes
      as there were padding characters, and the prepared length. */
  function Decoded(input: Bytes): (r: Result<(Bytes, nat)>)
    ensures r == Failure(MalformedBlock('y')) <==> !Aligned(input, 'y')
    ensures r == Failure(MalformedBlock('z')) <==> Aligned(input, 'y') && !Aligned(input, 'z')
    ensures r.Success? ==> r.value.1 == |Prepared(input)| && r.value.1 % 5 == 0
    ensures r.Success? ==>
              |r.value.0| == 4 * (r.value.1 / 5) - Padding(|KeepAlphabet(Expand(input))|, 5)
  {
    if !Aligned(input, 'y') then Failure(MalformedBlock('y'))
    else if !Aligned(input, 'z') then Failure(MalformedBlock('z'))
    else
      var filtered := KeepAlphabet(Expand(input));
      var padding := Padding(|filtered|, 5);
      var padded := Prepared(input);
      ChunksProperties(padded, 5);
      match DecodeGroups(Chunks(padded, 5))
      case Failure(e) => Failure(e)
      case Success(output) =>
        assert |output| == 4 * (|padded| / 5);
        Success((if padding != 0 then DropLast(output, padding) else output, |padded|))
  }

  /** A computation that already produced `prefix`, continued with `r`. */
  function Prepend(prefix: Bytes, r: Result<Bytes>): Result<Bytes>
  {
    match r
    case Success(rest) => Success(prefix + rest)
    case Failure(e) => Failure(e)
  }

  /** `ascii85_decode`: the two validation loops, then one block at a time
      the sum of its place values, checked and packed. */
  method Decode(input: Bytes) returns (r: Result<(Bytes, nat)>)
    ensures r == Decoded(input)
  {
    var shorthands: Bytes := "yz";
    for j := 0 to 2
      invariant forall jj | 0 <= jj < j :: Aligned(input, shorthands[jj])
    {
      var aligned := CheckPieces(input, shorthands[j]);
      if !aligned {
        assert j == 1 ==> Aligned(input, shorthands[0]);
        return Failure(MalformedBlock(shorthands[j]));
      }
    }
    assert shorthands[0] == 'y' && shorthands[1] == 'z';
    var expanded := ReplaceAll<Byte>(ReplaceAll<Byte>(input, "z", "!!!!!"), "y", "+<VdL");
    var filtered := KeepAlphabet(expanded);
    var padding := Padding(|filtered|, 5);
    var padded: Bytes := filtered + Repeat<Byte>('u', padding);
    assert padded == Prepared(input);
    var blocks := SplitBlocks<Byte>(padded, 5);
    var groups := blocks.value;
    assert groups == Chunks(padded, 5);
    ChunksProperties(padded, 5);
    var decoded := DecodeBlocks(groups);
    match decoded
    case Failure(e) =>
      return Failure(e);
    case Success(output) =>
      if padding != 0 {
        output := DropLast(output, padding);
      }
      r := Success((output, |padded|));
  }

  /** The block loop of the decoder: each block's value is checked and
      packed, and the first block that is not a word ends the decoding. */
  method DecodeBlocks(groups: seq<Bytes>) returns (r: Result<Bytes>)
    requires forall i | 0 <= i < |groups| :: |groups[i]| == 5
    ensures r == DecodeGroups(groups)
  {
    var output: Bytes := [];
    assert groups[0..] == groups;
    PrependEmpty(DecodeGroups(groups));
    for k := 0 to |groups|
      invariant DecodeGroups(groups) == Prepend(output, DecodeGroups(groups[k..]))
    {
      var block := groups[k];
      var data := BlockValue(block);
      DecodeGroupsStep(groups, k);
      if !(0 <= data <= MaxWord) {
        return Failure(InvalidBlock(block));
      }
      PrependTwice(output, Pack(data), DecodeGroups(groups[k + 1..]));
      output := output + Pack(data);
    }
    assert groups[|groups|..] == [];
    assert output + [] == output;
    return Success(output);
  }

  /** The validation loop for one shorthand: every piece before a `c` is
      checked. */
  method CheckPieces(input: Bytes, c: Byte) returns (aligned: bool)
    ensures aligned == Aligned(input, c)
  {
    var parts := Split(input, c);
    for k := 0 to |parts| - 1
      invariant forall kk | 0 <= kk < k :: |parts[kk]| % 5 == 0
    {
      if |parts[k]| % 5 != 0 {
        return false;
      }
    }
    return true;
  }

  /** The inner loop of the decoder: the sum of the digits' place values. */
  method BlockValue(block: Bytes) returns (data: int)
    requires |block| == 5
    ensures data == GroupValue(block)
  {
    data := 0;
    for idx := 0 to |block|
      invariant data == GroupValue(block[..idx]) * Pow(85, 5 - idx)
    {
      var place := 4 - idx;
      var placeVal := block[idx] as int - 33;
      if place != 0 {
        placeVal := placeVal * Pow(85, place);
      }
      PlaceStep(block, idx);
      data := data + placeVal;
    }
    assert block[..|block|] == block;
  }

  // ---------------------------------------------------------------------
  // Helper lemmas for the methods

  lemma EncodeGroupsAppend(blocks: seq<Bytes>, block: Bytes)
    ensures EncodeGroups(blocks + [block]) == EncodeGroups(blocks) + EncodeGroup(block)
  {
    var f := seq(|blocks|, i requires 0 <= i < |blocks| => EncodeGroup(blocks[i]));
    assert seq(|blocks + [block]|, i requires 0 <= i < |blocks + [block]| => EncodeGroup((blocks + [block])[i]))
           == f + [EncodeGroup(block)];
    FlattenAppend(f, EncodeGroup(block));
  }

  lemma PrependEmpty(r: Result<Bytes>)
    ensures Prepend([], r) == r
  {
    if r.Success? {
      assert [] + r.value == r.value;
    }
  }

  lemma PrependTwice(a: Bytes, b: Bytes, r: Result<Bytes>)
    ensures Prepend(a, Prepend(b, r)) == Prepend(a + b, r)
  {
    if r.Success? {
      assert a + (b + r.value) == (a + b) + r.value;
    }
  }

  lemma DecodeGroupsStep(groups: seq<Bytes>, k: nat)
    requires k < |groups|
    ensures var v := GroupValue(groups[k]);
            DecodeGroups(groups[k..]) ==
              if !(0 <= v <= MaxWord) then Failure(InvalidBlock(groups[k]))
              else Prepend(Pack(v), DecodeGroups(groups[k + 1..]))
  {
    assert groups[k..][0] == groups[k];
    assert groups[k..][1..] == groups[k + 1..];
  }

  /** `''.join(reversed(chr_block))` is the digits most significant
      first. */
  lemma {:induction false} ReverseLowFirst(v: nat, n: nat)
    ensures Reverse(LowFirst(v, n)) == Digits(v, n, 85, 33)
  {
    if n > 0 {
      ReverseLowFirst(v / 85, n - 1);
      var l := LowFirst(v, n);
      assert l[1..] == LowFirst(v / 85, n - 1);
    }
  }

  /** One digit of the decoder's inner loop adds its place value. */
  lemma PlaceStep(block: Bytes, idx: nat)
    requires idx < |block| == 5
    ensures GroupValue(block[..idx]) * Pow(85, 5 - idx) +
              (block[idx] as int - 33) * Pow(85, 4 - idx) ==
            GroupValue(block[..idx + 1]) * Pow(85, 4 - idx)
  {
    var a, d, p := GroupValue(block[..idx]), block[idx] as int - 33, Pow(85, 4 - idx);
    var b: Bytes := block[..idx + 1];
    assert b[..idx] == block[..idx] && b[idx] == block[idx];
    assert GroupValue(block[..idx + 1]) == a * 85 + d;
    assert Pow(85, 5 - idx) == 85 * p;
    assert a * (85 * p) + d * p == (a * 85 + d) * p;
  }
}
