/** What the Ascii85 encoder and decoder promise, one block at a time and
    end to end. */
module Ascii85Laws {
  import opened Common
  import opened Text
  import opened Arith
  import opened Radix
  import opened Blocks
  import opened Ascii85

  // ---------------------------------------------------------------------
  // One block

  lemma PowConstants()
    ensures Pow(85, 1) == 85 && Pow(85, 2) == 7225 && Pow(85, 3) == 614125
    ensures Pow(85, 4) == 52200625 && Pow(85, 5) == 4437053125
    ensures Pow(256, 1) == 256 && Pow(256, 2) == 65536 && Pow(256, 3) == 16777216
    ensures Pow(256, 4) == MaxWord + 1
  {
    assert Pow(85, 1) == 85 * Pow(85, 0);
    assert Pow(256, 1) == 256 * Pow(256, 0);
  }

  /** Four bytes are a word, which five digits hold and give back. */
  lemma BlockRoundTrip(block: Bytes)
    requires |block| == 4
    ensures Word(block) <= MaxWord
    ensures GroupValue(GroupChars(Word(block))) == Word(block)
    ensures Pack(Word(block)) == block
  {
    var w := Word(block);
    PowConstants();
    ValueOfDigits(w, 5, 85, 33);
    DivModUnique(w, Pow(85, 5), 0, w);
    DigitsOfValue(block, 256, 0);
  }

  /** Packing a 32-bit word and unpacking the bytes gives the word back. */
  lemma WordOfPack(v: nat)
    requires v <= MaxWord
    ensures Word(Pack(v)) == v
  {
    PowConstants();
    ValueOfDigits(v, 4, 256, 0);
    DivModUnique(v, Pow(256, 4), 0, v);
  }

  /** The filter works character by character: what it keeps of a
      concatenation is what it keeps of each part, in order. */
  lemma {:induction false} KeepAlphabetConcat(a: Bytes, b: Bytes)
    ensures KeepAlphabet(a + b) == KeepAlphabet(a) + KeepAlphabet(b)
  {
    if a == [] {
      assert a + b == b;
    } else {
      assert (a + b)[0] == a[0] && (a + b)[1..] == a[1..] + b;
      KeepAlphabetConcat(a[1..], b);
    }
  }

  /** One character is kept exactly when it lies in `!`..`u`. */
  lemma KeepAlphabetOne(c: Byte)
    ensures KeepAlphabet([c]) == if InAlphabet(c) then [c] else []
  {
    assert [c][1..] == [];
  }

  /** A block is written `z` exactly when it is all NUL bytes. */
  lemma {:induction false} WordZero(s: Bytes)
    ensures Word(s) == 0 <==> forall i | 0 <= i < |s| :: s[i] == '\0'
  {
    if s != [] {
      var h := s[..|s| - 1];
      WordZero(h);
      assert Word(s) == Word(h) * 256 + s[|s| - 1] as int;
      if forall i | 0 <= i < |s| :: s[i] == '\0' {
        assert forall i | 0 <= i < |h| :: h[i] == '\0' by {
          forall i | 0 <= i < |h| ensures h[i] == '\0' { assert h[i] == s[i]; }
        }
      }
      if Word(s) == 0 {
        MulMonotone(256, 0, Word(h));
        forall i | 0 <= i < |s| ensures s[i] == '\0' {
          if i < |h| { assert s[i] == h[i]; }
        }
      }
    }
  }

  /** A block with a non-zero word becomes five digit characters whose
      base-85 value is the word, and an all-NUL block becomes `z`. */
  lemma GroupEncoding(block: Bytes)
    requires |block| == 4
    ensures Word(block) == 0 <==> EncodeGroup(block) == "z"
    ensures Word(block) != 0 ==>
              |EncodeGroup(block)| == 5 && IsDigits(EncodeGroup(block), 85, 33) &&
              GroupValue(EncodeGroup(block)) == Word(block)
  {
    BlockRoundTrip(block);
    if Word(block) != 0 {
      assert EncodeGroup(block)[0] != 'z';
    }
  }

  /** Digit characters are exactly the alphabet `!`..`u`. */
  lemma DigitsInAlphabet(s: Bytes)
    requires IsDigits(s, 85, 33)
    ensures forall i | 0 <= i < |s| :: InAlphabet(s[i])
    ensures 'y' !in s && 'z' !in s
  {
  }

  // ---------------------------------------------------------------------
  // The encoder's output, group by group

  /** The five digits of each block, zero blocks included. */
  function FullGroups(blocks: seq<Bytes>): (r: seq<Bytes>)
    ensures |r| == |blocks|
  {
    seq(|blocks|, i requires 0 <= i < |blocks| => GroupChars(Word(blocks[i])))
  }

  lemma EncodeGroupsCons(blocks: seq<Bytes>)
    requires |blocks| > 0
    ensures EncodeGroups(blocks) == EncodeGroup(blocks[0]) + EncodeGroups(blocks[1..])
  {
    var f := seq(|blocks|, i requires 0 <= i < |blocks| => EncodeGroup(blocks[i]));
    assert f[1..] == seq(|blocks[1..]|, i requires 0 <= i < |blocks[1..]| => EncodeGroup(blocks[1..][i]));
  }

  lemma FullGroupsCons(blocks: seq<Bytes>)
    requires |blocks| > 0
    ensures FullGroups(blocks) == [GroupChars(Word(blocks[0]))] + FullGroups(blocks[1..])
  {
  }

  lemma ZeroChars()
    ensures GroupChars(0) == "!!!!!"
    ensures ReplaceAll<Byte>("z", "z", "!!!!!") == "!!!!!"
  {
    assert Digits(0, 1, 85, 33) == "!";
    assert Digits(0, 2, 85, 33) == "!!";
    assert Digits(0, 3, 85, 33) == "!!!";
    assert Digits(0, 4, 85, 33) == "!!!!";
    var z: Bytes := "z";
    assert z[..1] == "z" && z[1..] == [];
  }

  /** Writing `z` out as five `!` turns the encoder's output into the
      digits of every block; neither holds a `y`. */
  lemma {:induction false} ExpandGroups(blocks: seq<Bytes>)
    requires forall i | 0 <= i < |blocks| :: |blocks[i]| == 4
    ensures ReplaceAll<Byte>(EncodeGroups(blocks), "z", "!!!!!") == Flatten(FullGroups(blocks))
    ensures 'y' !in EncodeGroups(blocks)
  {
    if blocks != [] {
      var b := blocks[0];
      EncodeGroupsCons(blocks);
      FullGroupsCons(blocks);
      ExpandGroups(blocks[1..]);
      ReplaceCharConcat<Byte>(EncodeGroup(b), EncodeGroups(blocks[1..]), 'z', "!!!!!");
      GroupEncoding(b);
      if Word(b) == 0 {
        ZeroChars();
      } else {
        DigitsInAlphabet(EncodeGroup(b));
        ReplaceCharAbsent<Byte>(EncodeGroup(b), 'z', "!!!!!");
      }
      assert 'y' !in EncodeGroup(b);
    }
  }

  /** The digits of every block are all in the alphabet. */
  lemma {:induction false} FullGroupsDigits(blocks: seq<Bytes>)
    ensures IsDigits(Flatten(FullGroups(blocks)), 85, 33)
    ensures |Flatten(FullGroups(blocks))| == 5 * |blocks|
  {
    if blocks != [] {
      FullGroupsCons(blocks);
      FullGroupsDigits(blocks[1..]);
      var g := GroupChars(Word(blocks[0]));
      var rest := Flatten(FullGroups(blocks[1..]));
      assert Flatten(FullGroups(blocks)) == g + rest;
      forall i | 0 <= i < |g + rest| ensures 33 <= (g + rest)[i] as int < 118 {
        if i >= 5 { assert (g + rest)[i] == rest[i - 5]; }
      }
    }
  }

  /** The pieces of the output before each `z` are whole groups, and so is
      the piece after the last `z`. */
  predicate ZClosed(s: Bytes)
  {
    var parts := Split<Byte>(s, 'z');
    Aligned(s, 'z') && |parts[|parts| - 1]| % 5 == 0
  }

  lemma {:induction false} EncodeGroupsClosed(blocks: seq<Bytes>)
    requires forall i | 0 <= i < |blocks| :: |blocks[i]| == 4
    ensures ZClosed(EncodeGroups(blocks))
    decreases |blocks|
  {
    if blocks == [] {
      assert EncodeGroups(blocks) == [];
    } else {
      var init, b := blocks[..|blocks| - 1], blocks[|blocks| - 1];
      assert blocks == init + [b];
      EncodeGroupsAppend(init, b);
      EncodeGroupsClosed(init);
      var s := EncodeGroups(init);
      GroupEncoding(b);
      if Word(b) == 0 {
        ClosedZ(s);
      } else {
        DigitsInAlphabet(EncodeGroup(b));
        ClosedGroup(s, EncodeGroup(b));
      }
    }
  }

  lemma ClosedZ(s: Bytes)
    requires ZClosed(s)
    ensures ZClosed(s + "z")
  {
    SplitSnoc<Byte>(s, 'z');
    var p, q := Split<Byte>(s, 'z'), Split<Byte>(s + "z", 'z');
    assert q == p + [[]];
    assert forall i | 0 <= i < |p| - 1 :: |p[i]| % 5 == 0;
    forall i | 0 <= i < |q| - 1 ensures |q[i]| % 5 == 0 {
      assert q[i] == p[i];
      if i < |p| - 1 {
        assert |p[i]| % 5 == 0;
      }
    }
  }

  lemma ClosedGroup(s: Bytes, g: Bytes)
    requires ZClosed(s) && |g| == 5 && 'z' !in g
    ensures ZClosed(s + g)
  {
    TailAligned(s, g);
    SplitAppendFree<Byte>(s, g, 'z');
  }

  /** Text without `z` after a closed prefix keeps the `z` pieces whole. */
  lemma TailAligned(s: Bytes, t: Bytes)
    requires ZClosed(s) && 'z' !in t
    ensures Aligned(s + t, 'z')
  {
    SplitAppendFree<Byte>(s, t, 'z');
    var p, q := Split<Byte>(s, 'z'), Split<Byte>(s + t, 'z');
    assert |q| == |p|;
    assert forall i | 0 <= i < |p| - 1 :: |p[i]| % 5 == 0;
    forall i | 0 <= i < |q| - 1 ensures |q[i]| % 5 == 0 {
      assert q[i] == p[..|p| - 1][i] == p[i];
    }
  }

  // ---------------------------------------------------------------------
  // Decoding the encoder's output

  /** Whole groups of digits decode to the blocks they came from. */
  lemma {:induction false} DecodeFull(blocks: seq<Bytes>, rest: seq<Bytes>)
    requires forall i | 0 <= i < |blocks| :: |blocks[i]| == 4
    ensures DecodeGroups(FullGroups(blocks) + rest) == Prepend(Flatten(blocks), DecodeGroups(rest))
  {
    if blocks == [] {
      assert FullGroups(blocks) + rest == rest;
      PrependEmpty(DecodeGroups(rest));
    } else {
      var b := blocks[0];
      var g := GroupChars(Word(b));
      var tail := FullGroups(blocks[1..]) + rest;
      FullGroupsCons(blocks);
      assert FullGroups(blocks) + rest == [g] + tail;
      BlockRoundTrip(b);
      DecodeGroupsCons(g, tail);
      DecodeFull(blocks[1..], rest);
      PrependTwice(b, Flatten(blocks[1..]), DecodeGroups(rest));
    }
  }

  /** A valid first group contributes its four bytes ahead of the rest. */
  lemma DecodeGroupsCons(g: Bytes, gs: seq<Bytes>)
    requires 0 <= GroupValue(g) <= MaxWord
    ensures DecodeGroups([g] + gs) == Prepend(Pack(GroupValue(g)), DecodeGroups(gs))
  {
    var cs := [g] + gs;
    assert cs[0] == g && cs[1..] == gs;
    assert cs[0..] == cs;
    DecodeGroupsStep(cs, 0);
  }

  /** Each group decodes to the four big-endian bytes of its own value:
      the `i`-th four bytes of the output are `pack(">I")` of the `i`-th
      group's value. */
  lemma {:induction false} DecodeGroupsBytes(groups: seq<Bytes>)
    requires DecodeGroups(groups).Success?
    ensures forall i | 0 <= i < |groups| ::
              DecodeGroups(groups).value[4 * i .. 4 * i + 4] == Pack(GroupValue(groups[i]))
  {
    if groups != [] {
      var g, gs := groups[0], groups[1..];
      assert groups == [g] + gs;
      DecodeGroupsCons(g, gs);
      DecodeGroupsBytes(gs);
      var out, rest := DecodeGroups(groups).value, DecodeGroups(gs).value;
      assert out == Pack(GroupValue(g)) + rest;
      forall i | 0 <= i < |groups|
        ensures out[4 * i .. 4 * i + 4] == Pack(GroupValue(groups[i]))
      {
        if i > 0 {
          assert groups[i] == gs[i - 1];
          assert out[4 * i .. 4 * i + 4] == rest[4 * (i - 1) .. 4 * (i - 1) + 4];
        }
      }
    }
  }

  /** `n` copies of the highest digit `u` are worth `85^n - 1`. */
  lemma {:induction false} ValueOfTopDigits(n: nat)
    ensures GroupValue(Repeat<Byte>('u', n)) == Pow(85, n) - 1
  {
    if n > 0 {
      var u: Bytes := ['u'];
      assert Repeat<Byte>('u', n) == u + Repeat<Byte>('u', n - 1);
      ValueConcat(u, Repeat<Byte>('u', n - 1), 85, 33);
      ValueOfTopDigits(n - 1);
      assert Value(u, 85, 33) == 84 by {
        assert u[..0] == [];
      }
    }
  }

  lemma SmallerPower(p: nat)
    requires 1 <= p <= 3
    ensures Pow(85, p) < Pow(256, p)
  {
    PowConstants();
  }

  /** The quotient bound the padded group needs: the leading digits of a
      word are below the power that is left. */
  lemma LeadingBound(w: nat, p: nat)
    requires p <= 5 && w < Pow(85, 5)
    ensures w / Pow(85, p) < Pow(85, 5 - p)
  {
    var P, Q := Pow(85, p), Pow(85, 5 - p);
    PowAdd(85, p, 5 - p);
    assert P * Q == Pow(85, 5);
    DivMod(w, P);
    if w / P >= Q {
      MulMonotone(P, Q, w / P);
    }
  }

  /** NUL padding shifts the word of the real bytes left. */
  lemma WordOfPadded(y: Bytes, p: nat)
    ensures Word(y + Repeat<Byte>('\0', p)) == Word(y) * Pow(256, p)
  {
    var z := Repeat<Byte>('\0', p);
    ValueConcat(y, z, 256, 0);
    WordZero(z);
  }

  /** The leading `5 - p` digits of `w` refilled with `p` digits `u`. */
  lemma Refilled(w: nat, p: nat)
    requires p <= 5 && w < Pow(85, 5)
    ensures GroupValue(GroupChars(w)[..5 - p] + Repeat<Byte>('u', p)) ==
              Pow(85, p) * (w / Pow(85, p)) + (Pow(85, p) - 1)
  {
    var P := Pow(85, p);
    DigitsPrefix(w, 5, p, 85, 33);
    DivMod(w, P);
    var q := w / P;
    var lead := Digits(q, 5 - p, 85, 33);
    ValueConcat(lead, Repeat<Byte>('u', p), 85, 33);
    ValueOfDigits(q, 5 - p, 85, 33);
    LeadingBound(w, p);
    DivModUnique(q, Pow(85, 5 - p), 0, q);
    ValueOfTopDigits(p);
    assert Value(lead, 85, 33) == q;
    var prod: int := q * P;
    assert prod == P * q;
  }

  /** Refilling the dropped digits of the last group with `u` gives a word
      between the padded word and the next multiple of `256^p`. */
  lemma RefilledValue(y: Bytes, p: nat) returns (v: int)
    requires 1 <= p <= 3 && |y| == 4 - p
    ensures v == GroupValue(GroupChars(Word(y + Repeat<Byte>('\0', p)))[..5 - p] + Repeat<Byte>('u', p))
    ensures Word(y) * Pow(256, p) <= v < Word(y) * Pow(256, p) + Pow(256, p)
  {
    var w := Word(y + Repeat<Byte>('\0', p));
    WordOfPadded(y, p);
    BlockRoundTrip(y + Repeat<Byte>('\0', p));
    PowConstants();
    Refilled(w, p);
    v := GroupValue(GroupChars(w)[..5 - p] + Repeat<Byte>('u', p));
    var P := Pow(85, p);
    DivMod(w, P);
    assert v == w as int - w % P + (P - 1);
    SmallerPower(p);
  }

  /** The last, padded group: its leading digits, refilled with `u`, give
      a word whose leading bytes are the input's last bytes. */
  lemma LastGroup(y: Bytes, p: nat)
    requires 1 <= p <= 3 && |y| == 4 - p
    ensures var v := GroupValue(GroupChars(Word(y + Repeat<Byte>('\0', p)))[..5 - p] + Repeat<Byte>('u', p));
            0 <= v <= MaxWord && Pack(v)[..4 - p] == y
  {
    var v := RefilledValue(y, p);
    var B := Pow(256, p);
    var wy := Word(y);
    PowAdd(256, 4 - p, p);
    PowConstants();
    MulMonotone(B, wy, Pow(256, 4 - p) - 1);
    assert wy * B <= Pow(256, 4) - B;
    DivModUnique(v, B, wy, v - wy * B);
    DigitsPrefix(v, 4, p, 256, 0);
    DigitsOfValue(y, 256, 0);
  }

  // ---------------------------------------------------------------------
  // End to end

  /** The padded input's blocks: all but the last are the input's leading
      bytes, and the last is the input's tail followed by the padding. */
  lemma LastBlock(x: Bytes)
    requires Padding(|x|, 4) != 0
    ensures var blocks := Chunks(PaddedInput(x), 4);
            var n := |blocks|;
            n > 0 && 4 * (n - 1) == |x| - |x| % 4 && Padding(|x|, 4) == 4 - |x| % 4 &&
            (forall i | 0 <= i < n :: |blocks[i]| == 4) &&
            Flatten(blocks[..n - 1]) == x[..4 * (n - 1)] &&
            blocks[n - 1] == x[4 * (n - 1)..] + Repeat<Byte>('\0', Padding(|x|, 4))
  {
    var p := Padding(|x|, 4);
    var padded := PaddedInput(x);
    var blocks := Chunks(padded, 4);
    ChunksProperties(padded, 4);
    var n := |blocks|;
    var init, last := blocks[..n - 1], blocks[n - 1];
    assert blocks == init + [last];
    FlattenAppend(init, last);
    ChunksOfFlatten(init, 4);
    assert padded == Flatten(init) + last;
    assert |Flatten(init)| == 4 * (n - 1);
    assert Flatten(init) == padded[..4 * (n - 1)] == x[..4 * (n - 1)];
    assert last == padded[4 * (n - 1)..];
  }

  /** Unless the tail is all NUL, the source's encoder and the corrected one
      agree. */
  lemma AgreesUnlessZeroTail(x: Bytes)
    requires !ZeroTail(x)
    ensures Encoded(x) == EncodedCorrected(x)
  {
    var p := Padding(|x|, 4);
    if p != 0 {
      LastBlock(x);
      var blocks := Chunks(PaddedInput(x), 4);
      var n := |blocks|;
      var init, last := blocks[..n - 1], blocks[n - 1];
      var y := x[4 * (n - 1)..];
      assert blocks == init + [last];
      EncodeGroupsAppend(init, last);
      WordZero(last);
      assert Word(last) != 0 by {
        var k :| |x| - |x| % 4 <= k < |x| && x[k] != '\0';
        assert last[k - 4 * (n - 1)] == y[k - 4 * (n - 1)] == x[k];
      }
      GroupEncoding(last);
      var e := EncodeGroups(init);
      var g := EncodeGroup(last);
      assert DropLast(e + g, p) == e + g[..5 - p];
    }
  }

  /** What the decoder keeps of text without `y` that expands to digits:
      every `y` piece is trivially whole and the filter keeps the digits. */
  lemma Clean(enc: Bytes, digits: Bytes)
    requires 'y' !in enc
    requires ReplaceAll<Byte>(enc, "z", "!!!!!") == digits && IsDigits(digits, 85, 33)
    ensures Aligned(enc, 'y')
    ensures KeepAlphabet(Expand(enc)) == digits
  {
    SplitAbsent<Byte>(enc, 'y');
    DigitsInAlphabet(digits);
    ReplaceCharAbsent<Byte>(digits, 'y', "+<VdL");
  }

  /** The decoder's result on aligned text, from what its filter keeps and
      what its groups decode to. */
  lemma DecodedFrom(enc: Bytes, filtered: Bytes, p: nat, groups: seq<Bytes>, out: Bytes)
    requires Aligned(enc, 'y') && Aligned(enc, 'z')
    requires KeepAlphabet(Expand(enc)) == filtered && Padding(|filtered|, 5) == p
    requires |filtered + Repeat<Byte>('u', p)| % 5 == 0
    requires Chunks(filtered + Repeat<Byte>('u', p), 5) == groups
    requires DecodeGroups(groups) == Success(out)
    ensures Decoded(enc) == Success((DropLast(out, p), |filtered| + p))
  {
    assert DropLast(out, 0) == out;
  }

  /** No padding is added to a whole number of groups. */
  lemma NoPadding(digits: Bytes, n: nat)
    requires |digits| == 5 * n
    ensures Padding(|digits|, 5) == 0
    ensures digits + Repeat<Byte>('u', Padding(|digits|, 5)) == digits
  {
    ModOfMultiple(n, 5);
    assert Repeat<Byte>('u', 0) == [];
  }

  /** The blocks of a padded input come back from the corrected encoding,
      whole blocks first and the last block trimmed. */
  lemma DecodeTrimmed(init: seq<Bytes>, y: Bytes, p: nat)
    requires forall i | 0 <= i < |init| :: |init[i]| == 4
    requires 1 <= p <= 3 && |y| == 4 - p
    ensures var tail := GroupChars(Word(y + Repeat<Byte>('\0', p)))[..5 - p];
            var enc := EncodeGroups(init) + tail;
            Decoded(enc) == Success((Flatten(init) + y, 5 * (|init| + 1)))
  {
    var tail := GroupChars(Word(y + Repeat<Byte>('\0', p)))[..5 - p];
    assert IsDigits(tail, 85, 33) by {
      var g := GroupChars(Word(y + Repeat<Byte>('\0', p)));
      forall i | 0 <= i < |tail| ensures 33 <= tail[i] as int < 118 {
        assert tail[i] == g[i];
      }
    }
    LastGroup(y, p);
    DecodeTrimmedTail(init, tail, y, p);
  }

  /** The same for any trimmed last group whose refilled value packs to a
      word beginning with the input's last bytes. */
  lemma DecodeTrimmedTail(init: seq<Bytes>, tail: Bytes, y: Bytes, p: nat)
    requires forall i | 0 <= i < |init| :: |init[i]| == 4
    requires 1 <= p <= 3 && |tail| == 5 - p && IsDigits(tail, 85, 33)
    requires var v := GroupValue(tail + Repeat<Byte>('u', p));
             0 <= v <= MaxWord && Pack(v)[..4 - p] == y
    ensures Decoded(EncodeGroups(init) + tail) == Success((Flatten(init) + y, 5 * (|init| + 1)))
  {
    var last' := tail + Repeat<Byte>('u', p);
    var enc := EncodeGroups(init) + tail;
    var filtered := Flatten(FullGroups(init)) + tail;
    var groups := FullGroups(init) + [last'];
    var out := Flatten(init) + Pack(GroupValue(last'));
    TrimmedFiltered(init, tail, p);
    TrimmedGroups(init, last', y, p);
    DecodedFrom(enc, filtered, p, groups, out);
  }

  /** What the decoder's preparation makes of the trimmed encoding: the
      digits unchanged, refilled with `p` copies of `u`, split into the full
      groups and the refilled last one. */
  lemma TrimmedFiltered(init: seq<Bytes>, tail: Bytes, p: nat)
    requires forall i | 0 <= i < |init| :: |init[i]| == 4
    requires 1 <= p <= 3 && |tail| == 5 - p && IsDigits(tail, 85, 33)
    ensures var enc := EncodeGroups(init) + tail;
            Aligned(enc, 'y') && Aligned(enc, 'z') &&
            KeepAlphabet(Expand(enc)) == Flatten(FullGroups(init)) + tail
    ensures var filtered := Flatten(FullGroups(init)) + tail;
            Padding(|filtered|, 5) == p && |filtered| + p == 5 * (|init| + 1) &&
            |filtered + Repeat<Byte>('u', p)| % 5 == 0 &&
            Chunks(filtered + Repeat<Byte>('u', p), 5) ==
              FullGroups(init) + [tail + Repeat<Byte>('u', p)]
  {
    var filtered := Flatten(FullGroups(init)) + tail;
    TrimmedClean(init, tail, p);
    TrimmedChunks(init, tail, p);
    assert filtered + Repeat<Byte>('u', p) == Flatten(FullGroups(init)) + tail + Repeat<Byte>('u', p);
  }

  /** The padded digits split into the full groups and the refilled one. */
  lemma TrimmedChunks(init: seq<Bytes>, tail: Bytes, p: nat)
    requires 1 <= p <= 3 && |tail| == 5 - p
    ensures |Flatten(FullGroups(init))| == 5 * |init|
    ensures Chunks(Flatten(FullGroups(init)) + tail + Repeat<Byte>('u', p), 5) ==
              FullGroups(init) + [tail + Repeat<Byte>('u', p)]
  {
    var full := Flatten(FullGroups(init));
    var last' := tail + Repeat<Byte>('u', p);
    var groups := FullGroups(init) + [last'];
    assert full + tail + Repeat<Byte>('u', p) == full + last';
    FlattenAppend(FullGroups(init), last');
    FullGroupsDigits(init);
    assert forall i | 0 <= i < |groups| :: |groups[i]| == 5 by {
      forall i | 0 <= i < |groups| ensures |groups[i]| == 5 {
        if i < |init| { assert groups[i] == GroupChars(Word(init[i])); }
      }
    }
    ChunksOfFlatten(groups, 5);
  }

  /** The full groups decode to their blocks and the refilled group to a
      word whose padding bytes are then dropped. */
  lemma TrimmedGroups(init: seq<Bytes>, last': Bytes, y: Bytes, p: nat)
    requires forall i | 0 <= i < |init| :: |init[i]| == 4
    requires 1 <= p <= 3
    requires 0 <= GroupValue(last') <= MaxWord && Pack(GroupValue(last'))[..4 - p] == y
    ensures var out := Flatten(init) + Pack(GroupValue(last'));
            DecodeGroups(FullGroups(init) + [last']) == Success(out) &&
            DropLast(out, p) == Flatten(init) + y
  {
    var pk := Pack(GroupValue(last'));
    var f := Flatten(init);
    DecodeFull(init, [last']);
    assert DecodeGroups([last']) == Success(pk) by {
      DecodeGroupsCons(last', []);
      assert [last'] + [] == [last'];
      assert DecodeGroups([]) == Success([]);
      assert pk + [] == pk;
    }
    var out := f + pk;
    assert |out| - p == |f| + (4 - p);
    assert out[..|out| - p] == f + pk[..4 - p];
  }

  /** The trimmed encoding is clean: no `y`, whole `z` pieces, and it
      expands to the full groups' digits followed by the trimmed ones,
      which lack `p` characters of a whole group. */
  lemma TrimmedClean(init: seq<Bytes>, tail: Bytes, p: nat)
    requires forall i | 0 <= i < |init| :: |init[i]| == 4
    requires 1 <= p <= 3 && |tail| == 5 - p && IsDigits(tail, 85, 33)
    ensures var enc := EncodeGroups(init) + tail;
            var filtered := Flatten(FullGroups(init)) + tail;
            Aligned(enc, 'y') && Aligned(enc, 'z') &&
            KeepAlphabet(Expand(enc)) == filtered &&
            Padding(|filtered|, 5) == p && |filtered| + p == 5 * (|init| + 1)
  {
    var enc := EncodeGroups(init) + tail;
    var digits := Flatten(FullGroups(init)) + tail;
    TrimmedShorthands(init, tail);
    TrimmedExpands(init, tail);
    TrimmedDigits(init, tail, p);
    Clean(enc, digits);
    TrimmedPadding(|init|, p);
  }

  /** The trimmed encoding has no `y`, and its `z` pieces are whole. */
  lemma TrimmedShorthands(init: seq<Bytes>, tail: Bytes)
    requires forall i | 0 <= i < |init| :: |init[i]| == 4
    requires IsDigits(tail, 85, 33)
    ensures 'y' !in EncodeGroups(init) + tail && Aligned(EncodeGroups(init) + tail, 'z')
  {
    ExpandGroups(init);
    EncodeGroupsClosed(init);
    DigitsInAlphabet(tail);
    TailAligned(EncodeGroups(init), tail);
  }

  /** Writing each `z` out gives the full groups' digits, then the tail. */
  lemma TrimmedExpands(init: seq<Bytes>, tail: Bytes)
    requires forall i | 0 <= i < |init| :: |init[i]| == 4
    requires IsDigits(tail, 85, 33)
    ensures ReplaceAll<Byte>(EncodeGroups(init) + tail, "z", "!!!!!") == Flatten(FullGroups(init)) + tail
  {
    ExpandGroups(init);
    DigitsInAlphabet(tail);
    ReplaceCharConcat<Byte>(EncodeGroups(init), tail, 'z', "!!!!!");
    ReplaceCharAbsent<Byte>(tail, 'z', "!!!!!");
  }

  lemma TrimmedDigits(init: seq<Bytes>, tail: Bytes, p: nat)
    requires |tail| == 5 - p && IsDigits(tail, 85, 33)
    ensures var digits := Flatten(FullGroups(init)) + tail;
            IsDigits(digits, 85, 33) && |digits| == 5 * |init| + (5 - p)
  {
    var full := Flatten(FullGroups(init));
    var digits := full + tail;
    FullGroupsDigits(init);
    forall i | 0 <= i < |digits| ensures 33 <= digits[i] as int < 118 {
      if i >= |full| { assert digits[i] == tail[i - |full|]; } else { assert digits[i] == full[i]; }
    }
  }

  /** A last group short of `p` characters is refilled with `p`. */
  lemma TrimmedPadding(n: nat, p: nat)
    requires 1 <= p <= 3
    ensures Padding(5 * n + (5 - p), 5) == p
  {
    ModShift(5 - p, 5, n);
    assert (5 * n + (5 - p)) % 5 == 5 - p;
  }

  /** The blocks of an unpadded input come back whole. */
  lemma DecodeWhole(blocks: seq<Bytes>)
    requires forall i | 0 <= i < |blocks| :: |blocks[i]| == 4
    ensures Decoded(EncodeGroups(blocks)) == Success((Flatten(blocks), 5 * |blocks|))
  {
    var enc := EncodeGroups(blocks);
    var groups := FullGroups(blocks);
    var digits := Flatten(groups);
    var out := Flatten(blocks);
    WholeClean(blocks);
    WholeGroups(blocks);
    NoPadding(digits, |blocks|);
    DecodedFrom(enc, digits, 0, groups, out);
    assert DropLast(out, 0) == out;
  }

  /** The digits of a run of encoded whole blocks pass the decoder's
      expansion and filtering unchanged. */
  lemma WholeClean(blocks: seq<Bytes>)
    requires forall i | 0 <= i < |blocks| :: |blocks[i]| == 4
    ensures Aligned(EncodeGroups(blocks), 'y') && Aligned(EncodeGroups(blocks), 'z')
    ensures KeepAlphabet(Expand(EncodeGroups(blocks))) == Flatten(FullGroups(blocks))
    ensures |Flatten(FullGroups(blocks))| == 5 * |blocks|
  {
    var enc := EncodeGroups(blocks);
    FullGroupsDigits(blocks);
    ExpandGroups(blocks);
    EncodeGroupsClosed(blocks);
    Clean(enc, Flatten(FullGroups(blocks)));
  }

  /** The digits of whole blocks split back into their groups, which decode
      to the blocks. */
  lemma WholeGroups(blocks: seq<Bytes>)
    requires forall i | 0 <= i < |blocks| :: |blocks[i]| == 4
    ensures |Flatten(FullGroups(blocks))| % 5 == 0
    ensures Chunks(Flatten(FullGroups(blocks)), 5) == FullGroups(blocks)
    ensures DecodeGroups(FullGroups(blocks)) == Success(Flatten(blocks))
  {
    ChunksOfFlatten(FullGroups(blocks), 5);
    DecodeFull(blocks, []);
    assert FullGroups(blocks) + [] == FullGroups(blocks);
    assert Flatten(blocks) + [] == Flatten(blocks);
  }

  /** The corrected encoder round-trips every byte string; the decoder
      reports five characters per block. */
  lemma RoundTripCorrected(x: Bytes)
    ensures Decoded(EncodedCorrected(x).0) == Success((x, 5 * (EncodedCorrected(x).1 / 4)))
  {
    if Padding(|x|, 4) == 0 {
      RoundTripWhole(x);
    } else {
      RoundTripPadded(x);
    }
  }

  lemma RoundTripWhole(x: Bytes)
    requires Padding(|x|, 4) == 0
    ensures Decoded(EncodedCorrected(x).0) == Success((x, 5 * (EncodedCorrected(x).1 / 4)))
  {
    var padded := PaddedInput(x);
    assert padded == x by {
      assert Repeat<Byte>('\0', 0) == [];
    }
    var blocks := Chunks(x, 4);
    ChunksProperties(x, 4);
    assert EncodedCorrected(x) == (EncodeGroups(blocks), |x|);
    DecodeWhole(blocks);
    assert |x| / 4 == |blocks|;
  }

  lemma RoundTripPadded(x: Bytes)
    requires Padding(|x|, 4) != 0
    ensures Decoded(EncodedCorrected(x).0) == Success((x, 5 * (EncodedCorrected(x).1 / 4)))
  {
    var p := Padding(|x|, 4);
    var padded := PaddedInput(x);
    var blocks := Chunks(padded, 4);
    LastBlock(x);
    ChunksProperties(padded, 4);
    var n := |blocks|;
    var init, y := blocks[..n - 1], x[4 * (n - 1)..];
    assert EncodedCorrected(x) ==
             (EncodeGroups(init) + GroupChars(Word(y + Repeat<Byte>('\0', p)))[..5 - p], |padded|);
    assert forall i | 0 <= i < |init| :: |init[i]| == 4;
    DecodeTrimmed(init, y, p);
    assert x[..4 * (n - 1)] + y == x;
    assert |padded| / 4 == n;
  }

  /** `ascii85_decode(ascii85_encode(x)) == x` unless the bytes the padding
      completes are all NUL. */
  lemma RoundTrip(x: Bytes)
    requires !ZeroTail(x)
    ensures Decoded(Encoded(x).0) == Success((x, 5 * (Encoded(x).1 / 4)))
  {
    AgreesUnlessZeroTail(x);
    RoundTripCorrected(x);
  }
}
