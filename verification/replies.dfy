/**
 * How `start` and `continue_handler` send a long text: cut into messages of
 * at most 4096 characters (Telegram's limit), with the menu keyboard attached
 * to the chunks that equal the text's last 4096 characters.
 */
module Replies {

  const ChunkSize: nat := 4096

  /** `[s[i:i+4096] for i in range(0, len(s), 4096)]` */
  function Chunks(s: string): (r: seq<string>)
    ensures s == [] <==> r == []
    ensures forall k :: 0 <= k < |r| ==> 0 < |r[k]| <= ChunkSize
    ensures forall k :: 0 <= k < |r| - 1 ==> |r[k]| == ChunkSize
    decreases |s|
  {
    if |s| == 0 then []
    else if |s| <= ChunkSize then [s]
    else [s[..ChunkSize]] + Chunks(s[ChunkSize..])
  }

  function Concat(chunks: seq<string>): string {
    if chunks == [] then [] else chunks[0] + Concat(chunks[1..])
  }

  /** Sending the chunks one after the other sends the whole text, unchanged. */
  lemma {:induction false} ChunksConcat(s: string)
    ensures Concat(Chunks(s)) == s
    decreases |s|
  {
    if |s| > ChunkSize {
      ChunksConcat(s[ChunkSize..]);
      assert Chunks(s)[1..] == Chunks(s[ChunkSize..]);
      assert s == s[..ChunkSize] + s[ChunkSize..];
    }
  }

  /** `range(0, len(s), 4096)` has one step per started block of 4096 characters. */
  lemma {:induction false} ChunkCount(s: string)
    ensures |Chunks(s)| == (|s| + ChunkSize - 1) / ChunkSize
    decreases |s|
  {
    if |s| > ChunkSize {
      ChunkCount(s[ChunkSize..]);
      assert (|s| + ChunkSize - 1) / ChunkSize == (|s| - 1) / ChunkSize + 1;
    }
  }

  /** The last chunk is the tail of the text, and the whole text when it fits in one message. */
  lemma {:induction false} LastChunkTail(s: string)
    requires s != []
    ensures var r := Chunks(s); var c := r[|r| - 1];
      c == s[|s| - |c|..] && (|s| <= ChunkSize ==> c == s)
    decreases |s|
  {
    if |s| > ChunkSize {
      var t := s[ChunkSize..];
      LastChunkTail(t);
      var c := Chunks(t)[|Chunks(t)| - 1];
      assert Chunks(s)[|Chunks(s)| - 1] == c;
      assert t[|t| - |c|..] == s[|s| - |c|..];
    }
  }

  /** The last chunk is a full 4096 characters exactly when the length of the text is a multiple of 4096. */
  lemma {:induction false} LastChunkFull(s: string)
    requires s != []
    ensures var r := Chunks(s); |r[|r| - 1]| == ChunkSize <==> |s| % ChunkSize == 0
    decreases |s|
  {
    if |s| > ChunkSize {
      var t := s[ChunkSize..];
      LastChunkFull(t);
      assert Chunks(s)[|Chunks(s)| - 1] == Chunks(t)[|Chunks(t)| - 1];
      assert |s| % ChunkSize == |t| % ChunkSize;
    }
  }

  /** The end of the slice `s[i:i+4096]`, which Python clips to the length of `s`. */
  function SliceEnd(s: string, i: nat): nat {
    if i + ChunkSize <= |s| then i + ChunkSize else |s|
  }

  /** The `k`-th chunk is the slice `s[4096k:4096k+4096]` that the comprehension takes at `i = 4096k`. */
  lemma {:induction false} ChunkAt(s: string, k: nat)
    requires k < |Chunks(s)|
    ensures k * ChunkSize < |s|
    ensures Chunks(s)[k] == s[k * ChunkSize..SliceEnd(s, k * ChunkSize)]
    decreases |s|
  {
    if k > 0 {
      var t := s[ChunkSize..];
      assert Chunks(s)[k] == Chunks(t)[k - 1];
      ChunkAt(t, k - 1);
      assert (k - 1) * ChunkSize + ChunkSize == k * ChunkSize;
    }
  }

  lemma {:induction false} ChunksAt(s: string)
    ensures forall k :: 0 <= k < |Chunks(s)| ==>
      k * ChunkSize < |s| && Chunks(s)[k] == s[k * ChunkSize..SliceEnd(s, k * ChunkSize)]
  {
    forall k | 0 <= k < |Chunks(s)|
      ensures k * ChunkSize < |s| && Chunks(s)[k] == s[k * ChunkSize..SliceEnd(s, k * ChunkSize)]
    {
      ChunkAt(s, k);
    }
  }

  /** `s[-4096:]`: the last 4096 characters, or all of `s` when it is shorter. */
  function LastWindow(s: string): (r: string)
    ensures |r| == if |s| < ChunkSize then |s| else ChunkSize
    ensures r == s[|s| - |r|..]
  {
    if |s| < ChunkSize then s else s[|s| - ChunkSize..]
  }

  /**
   * For each chunk, as written: is the menu attached? One flag per step of
   * `range(0, len(s), 4096)`, set when the slice taken at that step equals
   * `s[-4096:]`.
   */
  function MenuFlags(s: string): (r: seq<bool>)
    ensures |r| == (|s| + ChunkSize - 1) / ChunkSize
    ensures forall k :: 0 <= k < |r| ==>
      k * ChunkSize < |s| && (r[k] <==> s[k * ChunkSize..SliceEnd(s, k * ChunkSize)] == LastWindow(s))
  {
    ChunkCount(s);
    ChunksAt(s);
    var chunks := Chunks(s);
    seq(|chunks|, k requires 0 <= k < |chunks| => chunks[k] == LastWindow(s))
  }

  /** The final chunk carries the menu exactly when the text fits in one message or its length is a multiple of 4096. */
  lemma {:induction false} FinalChunkMenu(s: string)
    requires s != []
    ensures var flags := MenuFlags(s);
      |flags| > 0 && (flags[|flags| - 1] <==> |s| <= ChunkSize || |s| % ChunkSize == 0)
  {
    var chunks := Chunks(s);
    var c := chunks[|chunks| - 1];
    var w := LastWindow(s);
    LastChunkTail(s);
    LastChunkFull(s);
    if |s| <= ChunkSize {
      assert c == s == w;
    } else if |c| == ChunkSize {
      assert c == w;
    } else {
      assert |c| != |w|;
    }
  }

  /** A text of 4097 copies of one character: the menu goes on the FIRST of the two messages, not the last. */
  lemma {:induction false} MenuOnWrongChunk(ch: char)
    ensures var s := seq(4097, _ => ch); MenuFlags(s) == [true, false]
  {
    var s := seq(4097, _ => ch);
    var chunks := Chunks(s);
    assert Chunks(s[4096..]) == [s[4096..]];
    assert chunks[0] == s[..4096] == LastWindow(s);
  }

  /** A text of one 'x' and 4096 'y's: neither message carries the menu. */
  lemma {:induction false} MenuMissing()
    ensures var s := ['x'] + seq(4096, _ => 'y'); MenuFlags(s) == [false, false]
  {
    var s := ['x'] + seq(4096, _ => 'y');
    var chunks := Chunks(s);
    assert Chunks(s[4096..]) == [s[4096..]];
    assert chunks[0][0] == 'x' && LastWindow(s)[0] == 'y';
  }

  /** A text of 8192 copies of one character: both messages carry the menu. */
  lemma {:induction false} MenuTwice(ch: char)
    ensures var s := seq(8192, _ => ch); MenuFlags(s) == [true, true]
  {
    var s := seq(8192, _ => ch);
    var chunks := Chunks(s);
    assert Chunks(s[4096..]) == [s[4096..]];
    assert chunks[0] == s[..4096] == LastWindow(s);
    assert chunks[1] == s[4096..] == LastWindow(s);
  }

  /** The evidently intended rule: the menu goes on the final chunk. */
  function IntendedMenuFlags(s: string): seq<bool> {
    var chunks := Chunks(s);
    seq(|chunks|, k requires 0 <= k < |chunks| => k == |chunks| - 1)
  }

  function CountTrue(flags: seq<bool>): nat {
    if flags == [] then 0 else (if flags[0] then 1 else 0) + CountTrue(flags[1..])
  }

  /** Concatenation distributes over `+`. */
  lemma {:induction false} ConcatAppend(a: seq<string>, b: seq<string>)
    ensures Concat(a + b) == Concat(a) + Concat(b)
    decreases |a|
  {
    if a != [] {
      ConcatAppend(a[1..], b);
      assert (a + b)[1..] == a[1..] + b;
      assert a[0] + (Concat(a[1..]) + Concat(b)) == (a[0] + Concat(a[1..])) + Concat(b);
    } else {
      assert a + b == b;
    }
  }

  /**
   * Under the intended rule a non-empty text gets the menu exactly once, on
   * the chunk that ends the text (the chunks up to and including it make up
   * the whole text).
   */
  lemma {:induction false} IntendedMenuOnce(s: string)
    requires s != []
    ensures var flags := IntendedMenuFlags(s); var chunks := Chunks(s);
      CountTrue(flags) == 1 &&
      forall k :: 0 <= k < |flags| ==> (flags[k] <==> Concat(chunks[..k + 1]) == s)
  {
    var flags := IntendedMenuFlags(s);
    var chunks := Chunks(s);
    CountOnlyLast(flags);
    ChunksConcat(s);
    forall k | 0 <= k < |flags|
      ensures flags[k] <==> Concat(chunks[..k + 1]) == s
    {
      assert chunks == chunks[..k + 1] + chunks[k + 1..];
      ConcatAppend(chunks[..k + 1], chunks[k + 1..]);
      if k < |chunks| - 1 {
        var rest := chunks[k + 1..];
        assert Concat(rest) == rest[0] + Concat(rest[1..]) && rest[0] != [];
      } else {
        assert chunks[k + 1..] == [];
      }
    }
  }

  lemma {:induction false} CountOnlyLast(flags: seq<bool>)
    requires flags != [] && flags[|flags| - 1]
    requires forall k :: 0 <= k < |flags| - 1 ==> !flags[k]
    ensures CountTrue(flags) == 1
    decreases |flags|
  {
    if |flags| > 1 {
      CountOnlyLast(flags[1..]);
    }
  }

  /** For a text that fits in one message, the code as written does what was intended. */
  lemma {:induction false} ShortTextAsIntended(s: string)
    requires |s| <= ChunkSize
    ensures MenuFlags(s) == IntendedMenuFlags(s)
  {
    if s != [] {
      assert Chunks(s) == [s] && LastWindow(s) == s;
    }
  }
}
