/**
 * The Huffman coder: count the bytes, build the tree, turn its leaves into
 * the code table, pack the codewords of the input into bytes; and the way
 * back, unpacking the bytes to bits and scanning them greedily against the
 * inverted table.
 */
module HuffmanCoding {
  import opened Wrappers
  import opened Bits
  import opened HTNodes
  import opened HuffmanTrees
  import opened CodeTables

  /** `getByteWeight`: each byte present in `bytes`, mapped to how often it occurs. */
  method GetByteWeight(bytes: seq<JByte>) returns (weightMap: map<JByte, nat>)
    ensures forall b :: b in weightMap <==> b in bytes
    ensures forall b :: b in weightMap ==> weightMap[b] == multiset(bytes)[b] && weightMap[b] >= 1
  {
    weightMap := map[];
    for i := 0 to |bytes|
      invariant forall b :: b in weightMap <==> b in bytes[..i]
      invariant forall b :: b in weightMap ==> weightMap[b] == multiset(bytes[..i])[b] && weightMap[b] >= 1
    {
      var b := bytes[i];
      assert bytes[..i + 1] == bytes[..i] + [b];
      // weightMap.merge(b, 1, Integer::sum)
      if b in weightMap {
        weightMap := weightMap[b := weightMap[b] + 1];
      } else {
        weightMap := weightMap[b := 1];
      }
    }
    assert bytes[..|bytes|] == bytes;
  }

  /** The symbols (node values) of the bytes of `bytes`. */
  ghost function SymbolsOf(bytes: seq<JByte>): set<Option<JByte>> {
    set b | b in bytes :: Some(b)
  }

  /**
   * The tree half of `code(byte[])`: count the bytes, build the tree from the
   * counts and take its leaf list. `createTree` throws on empty input.
   */
  method BuildLeaves(bytes: seq<JByte>) returns (outcome: Outcome<seq<HTNode>>)
    ensures bytes == [] <==> outcome.Thrown?
    ensures outcome.Thrown? ==> outcome.exception == IndexOutOfBounds
    ensures outcome.Ok? ==> LeafTable(outcome.value, SymbolsOf(bytes))
  {
    var weightMap := GetByteWeight(bytes);
    assert bytes != [] ==> bytes[0] in weightMap;
    var tree := new HuffmanTree(weightMap);
    var created := tree.CreateTree();
    if created.Thrown? {
      return Thrown(IndexOutOfBounds);
    }
    tree.LeafCode();
    SymbolsOfBytes(tree.symbols, weightMap, bytes);
    outcome := Ok(tree.leafList);
  }

  /** The static state of `HuffmanCode`: the code table shared by coding and decoding. */
  class HuffmanCode {
    var codeMap: CodeMap

    constructor ()
      ensures codeMap == map[]
    {
      codeMap := map[];
    }

    /**
     * `createCodeMap`: a fresh table with one entry `value -> path` per leaf;
     * for a byte that occurs on several leaves the last one wins.
     */
    method CreateCodeMap(leafList: seq<HTNode>)
      modifies this
      ensures codeMap.Keys == set i | 0 <= i < |leafList| :: leafList[i].value
      ensures forall i :: 0 <= i < |leafList| && (forall j :: i < j < |leafList| ==> leafList[j].value != leafList[i].value) ==>
        codeMap[leafList[i].value] == leafList[i].path
    {
      codeMap := map[];
      for n := 0 to |leafList|
        invariant codeMap.Keys == set i | 0 <= i < n :: leafList[i].value
        invariant forall i :: 0 <= i < n && (forall j :: i < j < n ==> leafList[j].value != leafList[i].value) ==>
          codeMap[leafList[i].value] == leafList[i].path
      {
        codeMap := codeMap[leafList[n].value := leafList[n].path];
      }
    }

    /**
     * `getCode`: append the codeword of every byte of `content`, then pack the
     * bits 8 at a time into ceil(L/8) bytes. A final short group is not packed:
     * it goes into the table under the null key and its byte stays 0. A full
     * group that is not binary makes `parseInt` throw.
     */
    method GetCode(content: seq<JByte>) returns (outcome: Outcome<seq<JByte>>)
      modifies this
      ensures outcome.Ok? <==> FullGroupsBinary(Encoded(old(codeMap), content))
      ensures outcome.Thrown? ==> outcome == Thrown(NumberFormat) && codeMap == old(codeMap)
      ensures outcome.Ok? ==> PackedFrom(outcome.value, Encoded(old(codeMap), content))
      ensures outcome.Ok? ==> var bits := Encoded(old(codeMap), content);
        codeMap == if |bits| % 8 != 0 then old(codeMap)[None := Tail(bits)] else old(codeMap)
    {
      var sb := "";
      for k := 0 to |content|
        invariant codeMap == old(codeMap) && sb == Encoded(codeMap, content[..k])
      {
        EncodedSnoc(codeMap, content[..k], content[k]);
        assert content[..k + 1] == content[..k] + [content[k]];
        sb := sb + Lookup(codeMap, Some(content[k]));
      }
      assert content[..|content|] == content;
      assert sb == Encoded(old(codeMap), content);
      ghost var m := codeMap;
      var len := (|sb| + 7) / 8;
      var code := new JByte[len](_ => 0);
      var i, j := 0, 0;
      while j < len
        invariant 0 <= j <= len && i == 8 * j
        invariant forall g :: 0 <= g < j && 8 * g + 8 <= |sb| ==> IsBinary(Group(sb, g))
        invariant forall g :: 0 <= g < len ==> code[g] == if g < j then PackedByte(sb, g) else 0
        invariant j < len || |sb| % 8 == 0 ==> codeMap == m
        invariant j == len && |sb| % 8 != 0 ==> codeMap == m[None := Tail(sb)]
      {
        GroupIndex(|sb|, j);
        if i + 8 > |sb| {
          codeMap := codeMap[None := sb[i..]];
        } else {
          var v := ParseGroup(sb, i, j);
          if v.Thrown? {
            return Thrown(NumberFormat);
          }
          code[j] := v.value;
        }
        i, j := i + 8, j + 1;
      }
      assert FullGroupsBinary(sb);
      assert PackedFrom(code[..], sb);
      outcome := Ok(code[..]);
    }

    /**
     * `code(byte[])`: count, build the tree, make the table from its leaves and
     * pack the input. On empty input `createTree` throws and the table is
     * untouched. Otherwise the table has a binary codeword for exactly the
     * bytes of the input, none a prefix of another; the result packs their
     * concatenation, and the null key holds the final short group, if any.
     * With one distinct byte its codeword is empty and nothing is packed.
     */
    method Code(bytes: seq<JByte>) returns (outcome: Outcome<seq<JByte>>)
      modifies this
      ensures bytes == [] <==> outcome == Thrown(IndexOutOfBounds)
      ensures bytes == [] ==> codeMap == old(codeMap)
      ensures bytes != [] ==> outcome.Ok?
      ensures bytes != [] ==> forall b :: Some(b) in codeMap <==> b in bytes
      ensures bytes != [] ==> PrefixFree(codeMap) && forall b :: b in bytes ==> IsBinary(codeMap[Some(b)])
      ensures bytes != [] ==> var bits := Encoded(codeMap, bytes);
        && PackedFrom(outcome.value, bits)
        && (None in codeMap <==> |bits| % 8 != 0)
        && (None in codeMap ==> codeMap[None] == Tail(bits))
      ensures bytes != [] && (forall b :: b in bytes ==> b == bytes[0]) ==>
        codeMap[Some(bytes[0])] == "" && outcome == Ok([])
    {
      var leaves := BuildLeaves(bytes);
      if leaves.Thrown? {
        return Thrown(IndexOutOfBounds);
      }
      CreateCodeMap(leaves.value);
      ghost var table := codeMap;
      TableFromLeaves(leaves.value, bytes, table);
      EncodedBinary(table, bytes);
      BinaryFullGroups(Encoded(table, bytes));
      outcome := GetCode(bytes);
      EncodedIgnoresTail(table, bytes, Tail(Encoded(table, bytes)));
      if forall b :: b in bytes ==> b == bytes[0] {
        EmptyEncoding(table, bytes);
      }
    }

    /**
     * `getBinaryString`: every byte but the last as its 8 bits, zero-padded,
     * then the table's null-key entry in place of the last byte (the text
     * "null" when there is none); the empty array gives "".
     */
    method GetBinaryString(codes: seq<JByte>) returns (s: string)
      ensures s == if codes == [] then "" else ByteString(codes[..|codes| - 1]) + Lookup(codeMap, None)
    {
      s := "";
      for i := 0 to |codes|
        invariant s == if i == |codes| && i > 0 then ByteString(codes[..i - 1]) + Lookup(codeMap, None) else ByteString(codes[..i])
      {
        var format;
        if i == |codes| - 1 {
          format := Lookup(codeMap, None);
        } else {
          format := ByteBits(codes[i]);
          assert codes[..i + 1][..i] == codes[..i];
        }
        s := s + format;
      }
    }

    /**
     * `getContent`: invert the table (iteration order unspecified), then read
     * `codes` one character at a time into an accumulator; whenever the
     * accumulator is the key of a byte, emit that byte and clear it.
     */
    method GetContent(codes: string) returns (content: seq<JByte>, ghost decodeMap: DecodeMap)
      ensures Inverts(decodeMap, codeMap)
      ensures content == Scan(codes, "", decodeMap)
      ensures |content| <= |codes|
    {
      var table: DecodeMap := map[];
      var pending := codeMap.Keys;
      while pending != {}
        invariant pending <= codeMap.Keys
        invariant forall w :: w in table ==> table[w] in codeMap && codeMap[table[w]] == w
        invariant forall k :: k in codeMap && k !in pending ==> codeMap[k] in table
        decreases pending
      {
        var k :| k in pending;
        table := table[codeMap[k] := k];
        pending := pending - {k};
      }
      var sb := "";
      content := [];
      var index := 0;
      while index < |codes|
        invariant 0 <= index <= |codes|
        invariant content + Scan(codes[index..], sb, table) == Scan(codes, "", table)
      {
        assert codes[index..][0] == codes[index] && codes[index..][1..] == codes[index + 1..];
        sb := sb + [codes[index]];
        index := index + 1;
        var b := if sb in table then table[sb] else None;
        if b.Some? {
          assert (content + [b.value]) + Scan(codes[index..], "", table) == content + ([b.value] + Scan(codes[index..], "", table));
          content := content + [b.value];
          sb := "";
        }
      }
      assert codes[index..] == [];
      ScanLength(codes, "", table);
      decodeMap := table;
    }

    /** `decode`: unpack the bytes to a bit string and scan it. */
    method Decode(codes: seq<JByte>) returns (content: seq<JByte>, ghost decodeMap: DecodeMap)
      ensures Inverts(decodeMap, codeMap)
      ensures content == Scan(if codes == [] then "" else ByteString(codes[..|codes| - 1]) + Lookup(codeMap, None), "", decodeMap)
    {
      var binaryString := GetBinaryString(codes);
      content, decodeMap := GetContent(binaryString);
    }
  }

  /**
   * `(byte) Integer.parseInt(sb.substring(i, i + 8), 2)` for the group `j`
   * starting at `i`: the group read as a binary number and narrowed to a
   * byte, or NumberFormatException when it is not all bits.
   */
  function ParseGroup(sb: string, i: nat, j: nat): (r: Outcome<JByte>)
    requires i == 8 * j && i + 8 <= |sb|
    ensures r.Ok? <==> IsBinary(Group(sb, j))
    ensures r.Ok? ==> r.value == PackedByte(sb, j)
    ensures r.Thrown? ==> r.exception == NumberFormat
  {
    match ParseBinary(sb[i..i + 8])
    case Some(v) => Ok(ToByte(v))
    case None => Thrown(NumberFormat)
  }

  /** Of the ceil(L/8) groups, only the last can be short, and it is short exactly when L % 8 != 0. */
  lemma GroupIndex(L: nat, j: nat)
    requires j < (L + 7) / 8
    ensures 8 * j + 8 > L <==> j + 1 == (L + 7) / 8 && L % 8 != 0
    ensures 8 * j + 8 > L ==> 8 * j == L - L % 8
  {
  }

  /** The symbols of the tree built from the counts of `bytes` are those of `bytes`. */
  lemma SymbolsOfBytes(symbols: set<Option<JByte>>, weightMap: map<JByte, nat>, bytes: seq<JByte>)
    requires forall v :: v in symbols <==> v.Some? && v.value in weightMap
    requires forall b :: b in weightMap <==> b in bytes
    ensures symbols == SymbolsOf(bytes)
  {
  }

  /** With distinct leaf values, the last-wins table holds every leaf's own path. */
  lemma TableEntries(leaves: seq<HTNode>, symbols: set<Option<JByte>>, m: CodeMap)
    requires LeafTable(leaves, symbols)
    requires m.Keys == set i | 0 <= i < |leaves| :: leaves[i].value
    requires forall i :: 0 <= i < |leaves| && (forall j :: i < j < |leaves| ==> leaves[j].value != leaves[i].value) ==>
      m[leaves[i].value] == leaves[i].path
    ensures forall k :: k in m <==> k in symbols
    ensures forall i :: 0 <= i < |leaves| ==> leaves[i].value in m && m[leaves[i].value] == leaves[i].path
    ensures forall k :: k in m ==> exists i :: 0 <= i < |leaves| && leaves[i].value == k
  {
    assert forall i :: 0 <= i < |leaves| ==> leaves[i] in leaves;
  }

  /** Hence the table is a prefix-free binary code keyed by symbols, and a lone symbol's codeword is empty. */
  lemma TableCode(leaves: seq<HTNode>, symbols: set<Option<JByte>>, m: CodeMap)
    requires LeafTable(leaves, symbols)
    requires forall i :: 0 <= i < |leaves| ==> leaves[i].value in m && m[leaves[i].value] == leaves[i].path
    requires forall k :: k in m ==> exists i :: 0 <= i < |leaves| && leaves[i].value == k
    ensures PrefixFree(m)
    ensures forall k :: k in m ==> k.Some? && IsBinary(m[k])
    ensures |symbols| == 1 ==> forall k :: k in m ==> m[k] == ""
  {
    assert forall i :: 0 <= i < |leaves| ==> leaves[i] in leaves;
  }

  /** The table made from the leaves of a finished tree for `bytes`: a prefix-free binary code for exactly those bytes. */
  lemma TableFromLeaves(leaves: seq<HTNode>, bytes: seq<JByte>, m: CodeMap)
    requires LeafTable(leaves, SymbolsOf(bytes))
    requires m.Keys == set i | 0 <= i < |leaves| :: leaves[i].value
    requires forall i :: 0 <= i < |leaves| && (forall j :: i < j < |leaves| ==> leaves[j].value != leaves[i].value) ==>
      m[leaves[i].value] == leaves[i].path
    ensures None !in m
    ensures forall b :: Some(b) in m <==> b in bytes
    ensures PrefixFree(m) && forall b :: b in bytes ==> IsBinary(m[Some(b)])
    ensures bytes != [] && (forall b :: b in bytes ==> b == bytes[0]) ==> m[Some(bytes[0])] == ""
  {
    TableEntries(leaves, SymbolsOf(bytes), m);
    TableCode(leaves, SymbolsOf(bytes), m);
    if bytes != [] && forall b :: b in bytes ==> b == bytes[0] {
      assert bytes[0] in bytes;
      assert SymbolsOf(bytes) == {Some(bytes[0])};
    }
  }

  /** A table whose only byte has the empty codeword encodes every input of that byte as "". */
  lemma {:induction false} EmptyEncoding(m: CodeMap, bytes: seq<JByte>)
    requires bytes != [] && Some(bytes[0]) in m && m[Some(bytes[0])] == ""
    requires forall b :: b in bytes ==> b == bytes[0]
    ensures Encoded(m, bytes) == ""
  {
    if |bytes| > 1 {
      assert bytes[1..][0] == bytes[1] && bytes[1] in bytes;
      assert forall b :: b in bytes[1..] ==> b in bytes;
      EmptyEncoding(m, bytes[1..]);
    }
  }

  /**
   * `decode(code(bytes))` gives `bytes` back when the table `code` leaves
   * behind has the shape `Code` promises, the input holds two different
   * bytes, the codewords do not fill whole bytes exactly, and the tail is no
   * byte's codeword (otherwise the inverted table can send it to null).
   */
  lemma CodeDecodeRoundTrip(m: CodeMap, dm: DecodeMap, bytes: seq<JByte>, code: seq<JByte>)
    requires forall b :: Some(b) in m <==> b in bytes
    requires PrefixFree(m) && forall b :: b in bytes ==> IsBinary(m[Some(b)])
    requires PackedFrom(code, Encoded(m, bytes))
    requires None in m <==> |Encoded(m, bytes)| % 8 != 0
    requires None in m ==> m[None] == Tail(Encoded(m, bytes))
    requires exists i, j :: 0 <= i < |bytes| && 0 <= j < |bytes| && bytes[i] != bytes[j]
    requires |Encoded(m, bytes)| % 8 != 0
    requires forall b :: b in bytes ==> m[None] != m[Some(b)]
    requires Inverts(dm, m)
    ensures Scan(if code == [] then "" else ByteString(code[..|code| - 1]) + Lookup(m, None), "", dm) == bytes
  {
    var i, j :| 0 <= i < |bytes| && 0 <= j < |bytes| && bytes[i] != bytes[j];
    forall b | b in bytes
      ensures |m[Some(b)]| > 0
    {
      var other := if b == bytes[i] then bytes[j] else bytes[i];
      PrefixFreeNonEmpty(m, b, other);
    }
    RoundTrip(m, dm, bytes, code);
  }
}
