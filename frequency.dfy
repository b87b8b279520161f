/**
 * The frequency tally of Huffman.compressFile: a HashMap from byte to its
 * number of occurrences, filled in one pass over the input, then turned into
 * one `Word` per entry, in the map's iteration order.
 */
module Frequency {
  import opened Wrappers
  import opened HuffmanTree

  /** The symbols of a word sequence. */
  function Symbols<S(==)>(words: seq<Word<S>>): set<Option<S>> {
    set k | 0 <= k < |words| :: words[k].symbol
  }

  /** `n` copies of `b`. */
  function Copies(b: byte, n: nat): (m: multiset<byte>)
    ensures |m| == n && m[b] == n
    ensures forall x :: x != b ==> m[x] == 0
  {
    if n == 0 then multiset{} else Copies(b, n - 1) + multiset{b}
  }

  /** `counts` holds the number of occurrences of every byte of `ms`, and
      no other key. */
  ghost predicate Counted(ms: multiset<byte>, counts: map<byte, nat>) {
    (forall b :: ms[b] == if b in counts then counts[b] else 0) &&
    (forall b :: b in counts ==> counts[b] > 0)
  }

  /** Counting one more byte keeps the counts. */
  lemma CountOne(ms: multiset<byte>, counts: map<byte, nat>, b: byte)
    requires Counted(ms, counts)
    ensures Counted(ms + multiset{b}, if b !in counts then counts[b := 1] else counts[b := counts[b] + 1])
  {
  }

  /** The words listed so far are one per key of `counts` outside
      `remaining`, each with its count; `covered` holds those counts. */
  ghost predicate Listed(counts: map<byte, nat>, words: seq<Word<byte>>, remaining: set<byte>, covered: multiset<byte>) {
    remaining <= counts.Keys &&
    (forall k :: 0 <= k < |words| ==>
      words[k].symbol.Some? && words[k].symbol.value in counts &&
      words[k].symbol.value !in remaining && words[k].frequency == counts[words[k].symbol.value]) &&
    (forall j, k :: 0 <= j < k < |words| ==> words[j].symbol != words[k].symbol) &&
    (forall b :: Some(b) in Symbols(words) <==> b in counts && b !in remaining) &&
    (forall b :: covered[b] == if b in counts && b !in remaining then counts[b] else 0) &&
    TotalFrequency(words) == |covered|
  }

  /** Listing the entry of one more key keeps the listing. */
  lemma ListOne(counts: map<byte, nat>, words: seq<Word<byte>>, remaining: set<byte>, covered: multiset<byte>, b: byte)
    requires Listed(counts, words, remaining, covered) && b in remaining
    ensures Listed(counts, words + [Word(Some(b), counts[b])], remaining - {b}, covered + Copies(b, counts[b]))
  {
    var word := Word(Some(b), counts[b]);
    TotalFrequencyAppend(words, [word]);
    assert Symbols(words + [word]) == Symbols(words) + {Some(b)} by {
      assert (words + [word])[|words|] == word;
      forall k | 0 <= k < |words| ensures (words + [word])[k] == words[k] {}
    }
  }

  /** Once every key is listed, the words are the tally of `bytes`. */
  lemma ListDone(bytes: seq<byte>, counts: map<byte, nat>, words: seq<Word<byte>>, covered: multiset<byte>)
    requires Counted(multiset(bytes), counts) && Listed(counts, words, {}, covered)
    ensures forall k :: 0 <= k < |words| ==>
      words[k].symbol.Some? && words[k].frequency == multiset(bytes)[words[k].symbol.value]
    ensures forall b :: Some(b) in Symbols(words) <==> b in bytes
    ensures TotalFrequency(words) == |bytes|
  {
    assert covered == multiset(bytes);
  }

  /**
   * The tally. The first loop counts each byte (`put(b, 1)` for a new key,
   * `put(b, get(b) + 1)` otherwise); the second walks the entries in some
   * order, which HashMap leaves unspecified, so any order is allowed here.
   * One word per distinct input byte, carrying its number of occurrences;
   * the frequencies add up to the input length.
   */
  method Tally(bytes: seq<byte>) returns (words: seq<Word<byte>>)
    ensures forall k :: 0 <= k < |words| ==>
      words[k].symbol.Some? && words[k].frequency == multiset(bytes)[words[k].symbol.value]
    ensures forall j, k :: 0 <= j < k < |words| ==> words[j].symbol != words[k].symbol
    ensures forall b :: Some(b) in Symbols(words) <==> b in bytes
    ensures TotalFrequency(words) == |bytes|
  {
    var counts: map<byte, nat> := map[];
    for i := 0 to |bytes|
      invariant Counted(multiset(bytes[..i]), counts)
    {
      var b := bytes[i];
      assert bytes[..i + 1] == bytes[..i] + [b];
      CountOne(multiset(bytes[..i]), counts, b);
      if b !in counts {
        counts := counts[b := 1];
      } else {
        counts := counts[b := counts[b] + 1];
      }
    }
    assert bytes[..|bytes|] == bytes;

    words := [];
    var remaining := counts.Keys;
    ghost var covered: multiset<byte> := multiset{};
    while remaining != {}
      invariant Listed(counts, words, remaining, covered)
      decreases |remaining|
    {
      var b :| b in remaining;
      ListOne(counts, words, remaining, covered, b);
      words := words + [Word(Some(b), counts[b])];
      covered := covered + Copies(b, counts[b]);
      remaining := remaining - {b};
    }
    ListDone(bytes, counts, words, covered);
  }
}
