/**
 * The code table of the Huffman coder and the strings built from it, as
 * values: the concatenation of codewords, the packing of 8-bit groups into
 * bytes and their unpacking, and the greedy scan that turns bits back into
 * bytes.
 */
module CodeTables {
  import opened Wrappers
  import opened Bits

  /** `HashMap<Byte, String> codeMap`: each byte's codeword; the null key (None) holds the unpacked final bits. */
  type CodeMap = map<Option<JByte>, string>

  /** `HashMap<String, Byte> decodeMap`, the inverted table; None is the null the final bits map to. */
  type DecodeMap = map<string, Option<JByte>>

  /** `codeMap.get(k)` handed to `StringBuilder.append`: the entry, or the text "null" when there is none. */
  function Lookup(m: CodeMap, k: Option<JByte>): string {
    if k in m then m[k] else "null"
  }

  /** The codewords of the bytes of `content`, one after another. */
  function Encoded(m: CodeMap, content: seq<JByte>): string {
    if content == [] then "" else Lookup(m, Some(content[0])) + Encoded(m, content[1..])
  }

  lemma {:induction false} EncodedSnoc(m: CodeMap, content: seq<JByte>, b: JByte)
    ensures Encoded(m, content + [b]) == Encoded(m, content) + Lookup(m, Some(b))
  {
    if content == [] {
      assert content + [b] == [b];
      assert [b][1..] == [];
    } else {
      assert (content + [b])[1..] == content[1..] + [b];
      EncodedSnoc(m, content[1..], b);
    }
  }

  /** The null-key entry plays no part in the encoding of bytes. */
  lemma {:induction false} EncodedIgnoresTail(m: CodeMap, content: seq<JByte>, tail: string)
    ensures Encoded(m[None := tail], content) == Encoded(m, content)
  {
    if content != [] {
      EncodedIgnoresTail(m, content[1..], tail);
    }
  }

  lemma BinaryConcat(a: string, b: string)
    requires IsBinary(a) && IsBinary(b)
    ensures IsBinary(a + b)
  {
    assert forall i :: 0 <= i < |a + b| ==> (a + b)[i] == if i < |a| then a[i] else b[i - |a|];
  }

  /** When every byte of `content` has a binary codeword, the encoding is a bit string. */
  lemma {:induction false} EncodedBinary(m: CodeMap, content: seq<JByte>)
    requires forall b :: b in content ==> Some(b) in m && IsBinary(m[Some(b)])
    ensures IsBinary(Encoded(m, content))
  {
    if content != [] {
      assert content[0] in content;
      assert forall b :: b in content[1..] ==> b in content;
      EncodedBinary(m, content[1..]);
      BinaryConcat(m[Some(content[0])], Encoded(m, content[1..]));
    }
  }

  /**
   * The codewords of different bytes are not prefixes of each other (so in
   * particular they differ). The null-key entry is not a codeword.
   */
  ghost predicate PrefixFree(m: CodeMap) {
    forall a, b :: Some(a) in m && Some(b) in m && a != b ==> !(m[Some(a)] <= m[Some(b)])
  }

  /** With two different bytes in a prefix-free table, no codeword is empty. */
  lemma PrefixFreeNonEmpty(m: CodeMap, a: JByte, b: JByte)
    requires PrefixFree(m) && Some(a) in m && Some(b) in m && a != b
    ensures |m[Some(a)]| > 0
  {
  }

  /** Bits `8j` to `8j + 8` of `bits`: the j-th full group. */
  function Group(bits: string, j: nat): (g: string)
    requires 8 * j + 8 <= |bits|
    ensures |g| == 8
  {
    bits[8 * j..8 * j + 8]
  }

  /** Every full group is a bit string, so `Integer.parseInt(_, 2)` accepts each. */
  ghost predicate FullGroupsBinary(bits: string) {
    forall j: nat :: 8 * j + 8 <= |bits| ==> IsBinary(Group(bits, j))
  }

  lemma BinaryFullGroups(bits: string)
    requires IsBinary(bits)
    ensures FullGroupsBinary(bits)
  {
    forall j: nat | 8 * j + 8 <= |bits|
      ensures IsBinary(Group(bits, j))
    {
      assert forall i :: 0 <= i < 8 ==> Group(bits, j)[i] == bits[8 * j + i];
    }
  }

  /**
   * `code` is what `getCode` packs from `bits`: ceil(L/8) bytes; each full
   * group read as an unsigned big-endian binary number and narrowed to a
   * byte; a final short group left at 0.
   */
  ghost predicate PackedFrom(code: seq<JByte>, bits: string) {
    && |code| == (|bits| + 7) / 8
    && forall j :: 0 <= j < |code| ==> code[j] == PackedByte(bits, j)
  }

  /** The byte packed for group `j`: the full group read as a binary number and narrowed, or 0 for a short group. */
  function PackedByte(bits: string, j: nat): JByte {
    if 8 * j + 8 <= |bits| then ToByte(BinaryValue(Group(bits, j))) else 0
  }

  /** The bits after the last full group; `getCode` files them under the null key. */
  function Tail(bits: string): (t: string)
    ensures |t| == |bits| % 8 && bits == bits[..|bits| - |bits| % 8] + t
  {
    bits[|bits| - |bits| % 8..]
  }

  /** The 8-bit patterns of the bytes of `codes`, zero-padded, one after another. */
  function ByteString(codes: seq<JByte>): (s: string)
    ensures |s| == 8 * |codes| && IsBinary(s)
  {
    if codes == [] then ""
    else
      var s := ByteString(codes[..|codes| - 1]);
      BinaryConcat(s, ByteBits(codes[|codes| - 1]));
      s + ByteBits(codes[|codes| - 1])
  }

  /** Unpacking the first `n` bytes of a packing gives the first `n` full groups back. */
  lemma {:induction false} UnpackFullGroups(code: seq<JByte>, bits: string, n: nat)
    requires PackedFrom(code, bits) && IsBinary(bits) && n <= |bits| / 8
    ensures ByteString(code[..n]) == bits[..8 * n]
  {
    if n > 0 {
      UnpackFullGroups(code, bits, n - 1);
      assert code[..n][..n - 1] == code[..n - 1];
      var g := Group(bits, n - 1);
      assert IsBinary(g) by {
        assert forall i :: 0 <= i < 8 ==> g[i] == bits[8 * (n - 1) + i];
      }
      GroupRoundTrip(g);
      assert bits[..8 * n] == bits[..8 * (n - 1)] + g;
    }
  }

  /**
   * When L % 8 != 0: every byte but the last unpacked to its 8 bits, and then
   * the tail, give the whole bit string back.
   */
  lemma UnpackPack(code: seq<JByte>, bits: string)
    requires PackedFrom(code, bits) && IsBinary(bits) && |bits| % 8 != 0
    ensures |code| > 0 && ByteString(code[..|code| - 1]) + Tail(bits) == bits
  {
    UnpackFullGroups(code, bits, |bits| / 8);
    assert |code| - 1 == |bits| / 8;
  }

  /**
   * When L is a non-zero multiple of 8 the table holds no tail, and the last
   * group comes back as the text "null": the unpacked string is not the bit
   * string that was packed.
   */
  lemma AlignedLosesLastGroup(code: seq<JByte>, bits: string, m: CodeMap)
    requires PackedFrom(code, bits) && IsBinary(bits) && |bits| > 0 && |bits| % 8 == 0 && None !in m
    ensures |code| > 0
    ensures ByteString(code[..|code| - 1]) + Lookup(m, None) == bits[..|bits| - 8] + "null"
    ensures ByteString(code[..|code| - 1]) + Lookup(m, None) != bits
  {
    UnpackFullGroups(code, bits, |bits| / 8 - 1);
    assert 8 * (|bits| / 8 - 1) == |bits| - 8;
    var u := bits[..|bits| - 8] + "null";
    assert u[|bits| - 8] == 'n';
    assert !IsBit(u[|bits| - 8]);
  }

  /**
   * `dm` is the table as `codeMap.forEach((k, v) -> decodeMap.put(v, k))`
   * leaves it, in whichever order the entries are visited: every value of
   * `m` is a key, and each key maps to an entry of `m` that has it as value.
   */
  ghost predicate Inverts(dm: DecodeMap, m: CodeMap) {
    && (forall w :: w in dm ==> dm[w] in m && m[dm[w]] == w)
    && (forall k :: k in m ==> m[k] in dm)
  }

  /** Whether `decodeMap.get(w)` is a byte rather than null. */
  predicate Matches(dm: DecodeMap, w: string) {
    w in dm && dm[w].Some?
  }

  /**
   * The scan of `getContent` over `codes` with `acc` already accumulated:
   * append one character; when the accumulator is now the key of a byte,
   * emit the byte and start afresh. Bits left over at the end are dropped.
   */
  function Scan(codes: string, acc: string, dm: DecodeMap): seq<JByte> {
    if codes == [] then []
    else
      var a := acc + [codes[0]];
      if Matches(dm, a) then [dm[a].value] + Scan(codes[1..], "", dm)
      else Scan(codes[1..], a, dm)
  }

  /** The scan emits at most one byte per character. */
  lemma {:induction false} ScanLength(codes: string, acc: string, dm: DecodeMap)
    ensures |Scan(codes, acc, dm)| <= |codes|
  {
    if codes != [] {
      var a := acc + [codes[0]];
      if Matches(dm, a) {
        ScanLength(codes[1..], "", dm);
      } else {
        ScanLength(codes[1..], a, dm);
      }
    }
  }

  /**
   * Reading the rest of a codeword `w` from its first `k` characters emits
   * the byte of `w` once all of `w` is read, provided no longer proper
   * prefix of `w` matches on the way.
   */
  lemma {:induction false} ScanWord(w: string, k: nat, rest: string, dm: DecodeMap)
    requires k < |w| && Matches(dm, w)
    requires forall j :: k < j < |w| ==> !Matches(dm, w[..j])
    ensures Scan(w[k..] + rest, w[..k], dm) == [dm[w].value] + Scan(rest, "", dm)
    decreases |w| - k
  {
    var codes := w[k..] + rest;
    assert codes[0] == w[k];
    assert w[..k] + [w[k]] == w[..k + 1];
    if k + 1 == |w| {
      assert w[..k + 1] == w;
      assert codes[1..] == rest;
    } else {
      assert codes[1..] == w[k + 1..] + rest;
      ScanWord(w, k + 1, rest, dm);
    }
  }

  /**
   * In an inverted prefix-free table the codeword of `b` maps back to `b`,
   * unless the tail equals it, and no proper prefix of it maps to a byte.
   */
  lemma CodewordDecodes(m: CodeMap, dm: DecodeMap, b: JByte)
    requires PrefixFree(m) && Inverts(dm, m) && Some(b) in m
    requires None in m ==> m[None] != m[Some(b)]
    ensures Matches(dm, m[Some(b)]) && dm[m[Some(b)]] == Some(b)
    ensures forall j :: 0 <= j < |m[Some(b)]| ==> !Matches(dm, m[Some(b)][..j])
  {
    var w := m[Some(b)];
    assert w in dm;
    forall j | 0 <= j < |w|
      ensures !Matches(dm, w[..j])
    {
      assert w[..j] <= w;
    }
  }

  /**
   * Greedy decoding over a prefix-free table: the scan of the codewords of
   * `s` gives `s` back, when every codeword is non-empty and the tail is
   * none of them.
   */
  lemma {:induction false} ScanEncoded(m: CodeMap, dm: DecodeMap, s: seq<JByte>)
    requires PrefixFree(m) && Inverts(dm, m)
    requires forall b :: b in s ==> Some(b) in m && |m[Some(b)]| > 0
    requires None in m ==> forall b :: b in s ==> m[None] != m[Some(b)]
    ensures Scan(Encoded(m, s), "", dm) == s
  {
    if s != [] {
      var b := s[0];
      assert b in s;
      var w := m[Some(b)];
      CodewordDecodes(m, dm, b);
      assert w[..0] == "" && w[0..] == w;
      ScanWord(w, 0, Encoded(m, s[1..]), dm);
      assert forall c :: c in s[1..] ==> c in s;
      ScanEncoded(m, dm, s[1..]);
    }
  }

  /**
   * The round trip of `code` and `decode`: the table is prefix free, holds a
   * non-empty bit string for every byte of `s`, the packed bits are not a
   * multiple of 8 long, the null key holds the tail and the tail is no
   * byte's codeword. Then unpacking the packed bytes and scanning them with
   * any inversion of the table gives `s`.
   */
  lemma RoundTrip(m: CodeMap, dm: DecodeMap, s: seq<JByte>, code: seq<JByte>)
    requires PrefixFree(m) && Inverts(dm, m)
    requires forall b :: b in s ==> Some(b) in m && IsBinary(m[Some(b)]) && |m[Some(b)]| > 0
    requires PackedFrom(code, Encoded(m, s)) && |Encoded(m, s)| % 8 != 0
    requires None in m && m[None] == Tail(Encoded(m, s))
    requires forall b :: b in s ==> m[None] != m[Some(b)]
    ensures |code| > 0
    ensures Scan(ByteString(code[..|code| - 1]) + Lookup(m, None), "", dm) == s
  {
    var bits := Encoded(m, s);
    EncodedBinary(m, s);
    UnpackPack(code, bits);
    ScanEncoded(m, dm, s);
  }
}
