/**
 * The sorted byte-word dictionary of dict/Dictionary.java: entries read from a newline-delimited
 * byte stream, and exact and prefix lookups by binary search under the byte comparator.
 */
module Dictionaries {
  import opened Lex

  /** A Java byte: signed, 8 bits. */
  type JByte = x: int | -128 <= x < 128

  type Bytes = seq<JByte>

  /** The byte value of '\n'. */
  const NEWLINE: JByte := 10

  // ---------------------------------------------------------------------------------------------
  // Character <-> byte casts

  /** `(byte) c`: the low 8 bits of the character code, read as two's complement. */
  function CharToByte(c: char): (b: JByte)
    ensures (c as int - b) % 256 == 0
  {
    (c as int + 128) % 256 - 128
  }

  /** `(char) b`: the byte sign-extended to a 16-bit code unit. */
  function ByteToChar(b: JByte): (c: char)
    ensures c as int == b % 0x1_0000
  {
    if b >= 0 then b as char else (b + 0x1_0000) as char
  }

  /** The characters that survive `(char) (byte) c`: ASCII and the sign-extended range. */
  predicate Representable(c: char)
  {
    c as int < 0x80 || 0xFF80 <= c as int <= 0xFFFF
  }

  predicate AllRepresentable(s: string)
  {
    forall i :: 0 <= i < |s| ==> Representable(s[i])
  }

  /** The byte image of a word, one byte per character (what encodeWord computes). */
  function Encode(word: string): (r: Bytes)
    ensures |r| == |word|
  {
    seq(|word|, i requires 0 <= i < |word| => CharToByte(word[i]))
  }

  /** The string image of an entry, one character per byte (what decodeWord computes). */
  function Decode(bytes: Bytes): (r: string)
    ensures |r| == |bytes|
  {
    seq(|bytes|, i requires 0 <= i < |bytes| => ByteToChar(bytes[i]))
  }

  /** encodeWord: fills a fresh byte array of the word's length. */
  method EncodeWord(word: string) returns (encoded: Bytes)
    ensures encoded == Encode(word)
  {
    var a := new JByte[|word|];
    for i := 0 to |word|
      invariant forall k :: 0 <= k < i ==> a[k] == CharToByte(word[k])
    {
      a[i] := CharToByte(word[i]);
    }
    encoded := a[..];
  }

  /** decodeWord: appends one character per byte to a builder. */
  method DecodeWord(word: Bytes) returns (decoded: string)
    ensures decoded == Decode(word)
  {
    decoded := "";
    for i := 0 to |word|
      invariant decoded == Decode(word[..i])
    {
      decoded := decoded + [ByteToChar(word[i])];
    }
    assert word[..|word|] == word;
  }

  /** Bytes always survive the round trip through characters. */
  lemma EncodeDecode(bytes: Bytes)
    ensures Encode(Decode(bytes)) == bytes
  {
    forall i | 0 <= i < |bytes| ensures Encode(Decode(bytes))[i] == bytes[i] {
      var c := ByteToChar(bytes[i]);
      assert (c as int - CharToByte(c)) % 256 == 0;
    }
  }

  /** A word survives the round trip through bytes exactly when all its characters are representable. */
  lemma DecodeEncode(word: string)
    ensures Decode(Encode(word)) == word <==> AllRepresentable(word)
  {
    if AllRepresentable(word) {
      forall i | 0 <= i < |word| ensures Decode(Encode(word))[i] == word[i] {
        var c := word[i];
        assert Representable(c);
      }
    } else {
      var i :| 0 <= i < |word| && !Representable(word[i]);
      assert Decode(Encode(word))[i] != word[i];
    }
  }

  /** Decoded entries consist of representable characters only. */
  lemma DecodeRepresentable(bytes: Bytes)
    ensures AllRepresentable(Decode(bytes))
  {
  }

  /** Encoding distributes over concatenation. */
  lemma EncodeAppend(a: string, b: string)
    ensures Encode(a + b) == Encode(a) + Encode(b)
  {
    assert forall i :: 0 <= i < |a + b| ==> Encode(a + b)[i] == (Encode(a) + Encode(b))[i];
  }

  // ---------------------------------------------------------------------------------------------
  // Splitting the stream into entries

  /** readWords' state after a byte sequence: the entries completed so far and the pending bytes. */
  function Split(s: Bytes): (entriesAndPending: (seq<Bytes>, Bytes))
    decreases |s|
  {
    if s == [] then ([], [])
    else
      var (entries, pending) := Split(s[..|s| - 1]);
      if s[|s| - 1] == NEWLINE then (entries + [pending], [])
      else (entries, pending + [s[|s| - 1]])
  }

  /** The entries readWords adds for a stream. */
  function Lines(s: Bytes): (r: seq<Bytes>)
  {
    Split(s).0
  }

  /** The bytes after the last newline, which readWords never adds. */
  function Pending(s: Bytes): (r: Bytes)
  {
    Split(s).1
  }

  /** Each entry followed by a newline, in order. */
  function Join(entries: seq<Bytes>): (r: Bytes)
  {
    if entries == [] then [] else Join(entries[..|entries| - 1]) + entries[|entries| - 1] + [NEWLINE]
  }

  predicate NoNewline(s: Bytes)
  {
    NEWLINE !in s
  }

  /**
   * The stream is the entries, each terminated by a newline, followed by the pending bytes;
   * no entry and not the pending run contains a newline.
   */
  lemma {:induction false} SplitRoundTrip(s: Bytes)
    ensures Join(Lines(s)) + Pending(s) == s
    ensures NoNewline(Pending(s))
    ensures forall k :: 0 <= k < |Lines(s)| ==> NoNewline(Lines(s)[k])
  {
    if s != [] {
      var init := s[..|s| - 1];
      SplitRoundTrip(init);
      var entries, pending := Lines(init), Pending(init);
      if s[|s| - 1] == NEWLINE {
        SplitNewline(s, entries, pending);
      } else {
        SplitOther(s, entries, pending);
      }
    }
  }

  /** There is one entry per newline of the stream. */
  lemma {:induction false} LinesCount(s: Bytes)
    ensures |Lines(s)| == multiset(s)[NEWLINE]
  {
    if s != [] {
      var init := s[..|s| - 1];
      LinesCount(init);
      assert s == init + [s[|s| - 1]];
      assert multiset(s) == multiset(init) + multiset{s[|s| - 1]};
    }
  }

  lemma SplitNewline(s: Bytes, entries: seq<Bytes>, pending: Bytes)
    requires s != [] && s[|s| - 1] == NEWLINE
    requires Split(s[..|s| - 1]) == (entries, pending)
    requires Join(entries) + pending == s[..|s| - 1]
    ensures Lines(s) == entries + [pending] && Pending(s) == []
    ensures Join(Lines(s)) + Pending(s) == s
  {
    var all := entries + [pending];
    assert all[..|all| - 1] == entries;
    assert s == s[..|s| - 1] + [NEWLINE];
  }

  lemma SplitOther(s: Bytes, entries: seq<Bytes>, pending: Bytes)
    requires s != [] && s[|s| - 1] != NEWLINE
    requires Split(s[..|s| - 1]) == (entries, pending)
    requires Join(entries) + pending == s[..|s| - 1]
    ensures Lines(s) == entries && Pending(s) == pending + [s[|s| - 1]]
    ensures Join(Lines(s)) + Pending(s) == s
  {
    assert s == s[..|s| - 1] + [s[|s| - 1]];
  }

  /** Conversely, entries without newlines and a newline-free tail split back into themselves. */
  lemma {:induction false} SplitJoin(entries: seq<Bytes>, pending: Bytes)
    requires forall k :: 0 <= k < |entries| ==> NoNewline(entries[k])
    requires NoNewline(pending)
    ensures Split(Join(entries) + pending) == (entries, pending)
    decreases |entries|, |pending|
  {
    var s := Join(entries) + pending;
    if pending != [] {
      var init := pending[..|pending| - 1];
      assert s[..|s| - 1] == Join(entries) + init;
      assert NEWLINE !in init by { assert forall k :: 0 <= k < |init| ==> init[k] == pending[k]; }
      SplitJoin(entries, init);
      assert pending == init + [pending[|pending| - 1]];
    } else if entries != [] {
      var front := entries[..|entries| - 1];
      var last := entries[|entries| - 1];
      assert s == Join(front) + last + [NEWLINE];
      assert s[..|s| - 1] == Join(front) + last;
      SplitJoin(front, last);
      assert front + [last] == entries;
    }
  }

  // ---------------------------------------------------------------------------------------------
  // The dictionary object

  /** A Dictionary: the list of entries, built once from the stream. */
  class Dictionary {
    var wordList: seq<Bytes>

    /** Dictionary(stream): an empty list, then readWords. */
    constructor (stream: Bytes)
      ensures wordList == Lines(stream)
    {
      wordList := [];
      new;
      ReadWords(stream);
    }

    /** readWords: one entry per newline byte, holding the bytes since the previous newline. */
    method ReadWords(stream: Bytes)
      modifies this
      ensures wordList == old(wordList) + Lines(stream)
    {
      var output: Bytes := [];
      var i := 0;
      while i < |stream|
        invariant 0 <= i <= |stream|
        invariant wordList == old(wordList) + Lines(stream[..i])
        invariant output == Pending(stream[..i])
      {
        assert stream[..i + 1][..i] == stream[..i];
        if stream[i] != NEWLINE {
          output := output + [stream[i]];
        } else {
          wordList := wordList + [output];
          output := [];
        }
        i := i + 1;
      }
      assert stream[..i] == stream;
    }
  }

  // ---------------------------------------------------------------------------------------------
  // Lookups (the queries of Dictionary over its wordList)

  /** Java's String.startsWith. */
  predicate StartsWith(s: string, prefix: string)
  {
    |prefix| <= |s| && s[..|prefix|] == prefix
  }

  /** Some entry begins with the byte sequence `key`. */
  ghost predicate SomeEntryExtends(words: seq<Bytes>, key: Bytes)
  {
    exists i :: 0 <= i < |words| && IsPrefix(key, words[i])
  }

  /** contains: the binary search finds the encoded word. */
  function Contains(words: seq<Bytes>, word: string): (b: bool)
    ensures b ==> Encode(word) in words
    ensures words == [] ==> !b
  {
    BinarySearch(words, Encode(word)) >= 0
  }

  /** containsPrefix: found exactly, or the entry at the insertion point starts with the prefix. */
  function ContainsPrefix(words: seq<Bytes>, prefix: string): (b: bool)
    ensures Contains(words, prefix) ==> b
    ensures words == [] ==> !b
    ensures b ==> SomeEntryExtends(words, Encode(prefix))
  {
    var r := BinarySearch(words, Encode(prefix));
    if r >= 0 then
      assert IsPrefix(Encode(prefix), words[r]);
      true
    else if -r - 1 < |words| then
      var entry := words[-r - 1];
      var hit := StartsWith(Decode(entry), prefix);
      assert hit ==> IsPrefix(Encode(prefix), entry) by {
        if hit {
          EncodeDecode(entry[..|prefix|]);
          assert Decode(entry[..|prefix|]) == Decode(entry)[..|prefix|];
        }
      }
      hit
    else false
  }

  /** On a sorted list, contains is exact membership of the encoded word. */
  lemma ContainsExact(words: seq<Bytes>, word: string)
    requires Sorted(words)
    ensures Contains(words, word) <==> Encode(word) in words
  {
    BinarySearchSorted(words, Encode(word));
  }

  /**
   * On a sorted list and a representable prefix, containsPrefix is exactly "some entry starts with
   * the prefix". For any other prefix the startsWith test can never succeed, so containsPrefix is
   * then exact membership.
   */
  lemma ContainsPrefixExact(words: seq<Bytes>, prefix: string)
    requires Sorted(words)
    ensures AllRepresentable(prefix) ==>
              (ContainsPrefix(words, prefix) <==> SomeEntryExtends(words, Encode(prefix)))
    ensures !AllRepresentable(prefix) ==>
              (ContainsPrefix(words, prefix) <==> Encode(prefix) in words)
  {
    var key := Encode(prefix);
    BinarySearchSorted(words, key);
    var r := BinarySearch(words, key);
    if r < 0 {
      var ip := -r - 1;
      if AllRepresentable(prefix) && SomeEntryExtends(words, key) {
        ExtensionAtInsertionPoint(words, key, ip);
        DecodedStartsWith(words[ip], prefix);
      }
      if !AllRepresentable(prefix) && ip < |words| {
        DecodeRepresentable(words[ip]);
      }
    }
  }

  /** When `key` is absent but extended by some entry, the entry at its insertion point extends it. */
  lemma ExtensionAtInsertionPoint(words: seq<Bytes>, key: Bytes, ip: int)
    requires Sorted(words) && InsertionPoint(words, key, ip) && SomeEntryExtends(words, key)
    ensures ip < |words| && IsPrefix(key, words[ip])
  {
    var j :| 0 <= j < |words| && IsPrefix(key, words[j]);
    CompareCommonPrefix(words[j], key);
    assert j >= ip;
    if ip < j {
      PrefixBetween(key, words[ip], words[j]);
    }
  }

  /** An entry whose bytes extend a representable prefix's image decodes to a string starting with it. */
  lemma DecodedStartsWith(entry: Bytes, prefix: string)
    requires AllRepresentable(prefix) && IsPrefix(Encode(prefix), entry)
    ensures StartsWith(Decode(entry), prefix)
  {
    assert Decode(entry)[..|prefix|] == Decode(Encode(prefix));
    DecodeEncode(prefix);
  }

  /** Every exact hit is also a prefix hit. */
  lemma ContainsImpliesPrefix(words: seq<Bytes>, word: string)
    requires Contains(words, word)
    ensures ContainsPrefix(words, word)
  {
  }

  /**
   * Pruning is safe: once a representable prefix has no extension in a sorted list, neither
   * has any longer string that starts with it.
   */
  lemma PrefixMonotone(words: seq<Bytes>, prefix: string, suffix: string)
    requires Sorted(words) && AllRepresentable(prefix)
    requires !ContainsPrefix(words, prefix)
    ensures !ContainsPrefix(words, prefix + suffix)
  {
    ContainsPrefixExact(words, prefix);
    EncodeAppend(prefix, suffix);
  }

  /** A prefix of an entry's decoding is found by containsPrefix on a sorted list. */
  lemma PrefixOfMember(words: seq<Bytes>, word: string, n: nat)
    requires Sorted(words) && Encode(word) in words && AllRepresentable(word) && n <= |word|
    ensures ContainsPrefix(words, word[..n])
  {
    var p := word[..n];
    assert AllRepresentable(p) by {
      assert forall i :: 0 <= i < n ==> p[i] == word[i];
    }
    ContainsPrefixExact(words, p);
    var j :| 0 <= j < |words| && words[j] == Encode(word);
    assert Encode(word)[..n] == Encode(p);
    assert IsPrefix(Encode(p), words[j]);
  }

  /**
   * Outside the representable characters pruning is not monotone: with the single entry "AB",
   * U+0141 has no prefix hit (its byte image "A" is no entry and "AB" does not start with it),
   * yet U+0141 followed by 'B' encodes to "AB" and is found exactly.
   */
  lemma NonRepresentablePrefixNotMonotone()
    ensures !ContainsPrefix([[65, 66]], "Ł")
    ensures ContainsPrefix([[65, 66]], "ŁB")
  {
    var words: seq<Bytes> := [[65, 66]];
    assert Encode("Ł") == [65];
    assert Encode("ŁB") == [65, 66];
    assert Compare([65, 66], [65]) == 1;
    assert Decode([65, 66]) == "AB";
  }
}
