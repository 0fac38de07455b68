/** The wire form of TXT records with tokens of any length: each token is cut into character-strings of at most 255
    bytes (section 3.3.14 of RFC 1035). */
module TxtWire {
  import opened Dns

  type Byte = x: int | 0 <= x < 256

  // ---------------------------------------------------------------------------------------------------------------
  // Specification: chunks, character-strings and decoding
  // ---------------------------------------------------------------------------------------------------------------

  function Concat(parts: seq<seq<Byte>>): seq<Byte> {
    if parts == [] then [] else parts[0] + Concat(parts[1..])
  }

  /** A character-string: a length byte and as many bytes. */
  function CharString(s: seq<Byte>): seq<Byte>
    requires |s| < 256
  {
    [|s|] + s
  }

  /** Consecutive pieces of 255 bytes, the last one possibly shorter; a token without bytes has one empty piece. */
  function Chunks(token: seq<Byte>): (r: seq<seq<Byte>>)
    ensures r != [] && forall c :: c in r ==> |c| <= 255
    decreases |token|
  {
    if |token| <= 255 then [token] else [token[..255]] + Chunks(token[255..])
  }

  function AllChunks(tokens: seq<seq<Byte>>): (r: seq<seq<Byte>>)
    ensures forall c :: c in r ==> |c| <= 255
  {
    if tokens == [] then [] else Chunks(tokens[0]) + AllChunks(tokens[1..])
  }

  function Strings(chunks: seq<seq<Byte>>): seq<Byte>
    requires forall c :: c in chunks ==> |c| <= 255
  {
    if chunks == [] then [] else CharString(chunks[0]) + Strings(chunks[1..])
  }

  /** The wire form of a TXT record. */
  function Wire(tokens: seq<seq<Byte>>): seq<Byte> {
    Strings(AllChunks(tokens))
  }

  /** Reads character-strings to the end of the data; fails if one claims more bytes than there are. */
  function Decode(wire: seq<Byte>): Option<seq<seq<Byte>>>
    decreases |wire|
  {
    if wire == [] then Some([])
    else
      var n: int := wire[0];
      if |wire| < 1 + n then None
      else match Decode(wire[1 + n..])
        case None => None
        case Some(rest) => Some([wire[1..1 + n]] + rest)
  }

  // ---------------------------------------------------------------------------------------------------------------
  // The encoder
  // ---------------------------------------------------------------------------------------------------------------

  lemma ChunkStep(token: seq<Byte>, i: nat)
    requires i <= |token|
    ensures Strings(Chunks(token[i..]))
         == if i + 255 < |token| then CharString(token[i..i + 255]) + Strings(Chunks(token[i + 255..]))
            else CharString(token[i..])
  {
    var rest := token[i..];
    if i + 255 < |token| {
      assert rest[..255] == token[i..i + 255] && rest[255..] == token[i + 255..];
      assert Chunks(rest)[1..] == Chunks(token[i + 255..]);
    } else {
      assert Strings([rest]) == CharString(rest) + [];
    }
  }

  lemma Assoc(file: seq<Byte>, s: seq<Byte>, rest: seq<Byte>)
    requires |s| < 256
    ensures file + (CharString(s) + rest) == file + [|s|] + s + rest
    ensures file + CharString(s) == file + [|s|] + s
  {
  }

  /** Writes one token to the buffer, chunk by chunk. */
  method WriteToken(buffer: seq<Byte>, token: seq<Byte>) returns (file: seq<Byte>)
    ensures file == buffer + Strings(Chunks(token))
  {
    hide Strings, Chunks;
    file := buffer;
    var i, end := 0, if |token| > 1 then |token| else 1;
    assert token[0..] == token;
    while i < end
      invariant 0 <= i && (0 < i < end ==> i < |token|)
      invariant if i < end then i <= |token| && file + Strings(Chunks(token[i..])) == buffer + Strings(Chunks(token))
                else file == buffer + Strings(Chunks(token))
      decreases end - i
    {
      ChunkStep(token, i);
      var s := if i + 255 <= |token| then token[i..i + 255] else token[i..];
      assert |s| < 256;
      Assoc(file, s, if i + 255 < |token| then Strings(Chunks(token[i + 255..])) else []);
      file := file + [|s|];
      file := file + s;
      i := i + 255;
    }
  }

  lemma NoTokens()
    ensures Wire([]) == []
  {
  }

  lemma WireStep(tokens: seq<seq<Byte>>, n: nat)
    requires n < |tokens|
    ensures Wire(tokens[n..]) == Strings(Chunks(tokens[n])) + Wire(tokens[n + 1..])
  {
    hide Strings, Chunks;
    assert tokens[n..][1..] == tokens[n + 1..];
    StringsAppend(Chunks(tokens[n]), AllChunks(tokens[n + 1..]));
  }

  method ToWire(tokens: seq<seq<Byte>>) returns (file: seq<Byte>)
    ensures file == Wire(tokens)
  {
    hide Wire, Strings, Chunks;
    file := [];
    assert tokens[0..] == tokens;
    for n := 0 to |tokens|
      invariant file + Wire(tokens[n..]) == Wire(tokens)
    {
      WireStep(tokens, n);
      file := WriteToken(file, tokens[n]);
    }
    assert tokens[|tokens|..] == [];
    NoTokens();
  }

  lemma {:induction false} StringsAppend(a: seq<seq<Byte>>, b: seq<seq<Byte>>)
    requires forall c :: c in a + b ==> |c| <= 255
    ensures forall c :: c in a ==> c in a + b
    ensures forall c :: c in b ==> c in a + b
    ensures Strings(a + b) == Strings(a) + Strings(b)
  {
    if a == [] {
      assert a + b == b;
    } else {
      assert (a + b)[1..] == a[1..] + b;
      StringsAppend(a[1..], b);
    }
  }

  // ---------------------------------------------------------------------------------------------------------------
  // What the encoding promises
  // ---------------------------------------------------------------------------------------------------------------

  lemma DecodeFirst(s: seq<Byte>, rest: seq<Byte>)
    requires |s| < 256
    ensures Decode(CharString(s) + rest)
         == match Decode(rest) case None => None case Some(chunks) => Some([s] + chunks)
  {
    var wire := CharString(s) + rest;
    assert wire[0] == |s|;
    assert wire[1..1 + |s|] == s;
    assert wire[1 + |s|..] == rest;
  }

  lemma {:induction false} DecodeStrings(chunks: seq<seq<Byte>>)
    requires forall c :: c in chunks ==> |c| <= 255
    ensures Decode(Strings(chunks)) == Some(chunks)
  {
    if chunks != [] {
      DecodeStrings(chunks[1..]);
      DecodeFirst(chunks[0], Strings(chunks[1..]));
      assert [chunks[0]] + chunks[1..] == chunks;
    }
  }

  /** The data decode to certain character-strings if and only if these, each after its length, are what the data consist
      of. */
  lemma DecodeIff(wire: seq<Byte>, chunks: seq<seq<Byte>>)
    ensures Decode(wire) == Some(chunks) <==> (forall c :: c in chunks ==> |c| <= 255) && wire == Strings(chunks)
  {
    if forall c :: c in chunks ==> |c| <= 255 {
      DecodeStrings(chunks);
    }
    DecodedStrings(wire);
  }

  lemma {:induction false} DecodedStrings(wire: seq<Byte>)
    ensures match Decode(wire) case None => true case Some(chunks) =>
              (forall c :: c in chunks ==> |c| <= 255) && wire == Strings(chunks)
    decreases |wire|
  {
    if wire != [] && Decode(wire).Some? {
      var n: int := wire[0];
      DecodedStrings(wire[1 + n..]);
      WithFirst(wire[1..1 + n], Decode(wire[1 + n..]).value);
      assert wire == CharString(wire[1..1 + n]) + wire[1 + n..];
    }
  }

  lemma WithFirst(s: seq<Byte>, rest: seq<seq<Byte>>)
    requires |s| <= 255 && forall c :: c in rest ==> |c| <= 255
    ensures forall c :: c in [s] + rest ==> |c| <= 255
    ensures Strings([s] + rest) == CharString(s) + Strings(rest)
  {
    assert ([s] + rest)[1..] == rest;
  }

  lemma {:induction false} ConcatAppend(a: seq<seq<Byte>>, b: seq<seq<Byte>>)
    ensures Concat(a + b) == Concat(a) + Concat(b)
  {
    if a == [] {
      assert a + b == b;
    } else {
      assert (a + b)[1..] == a[1..] + b;
      ConcatAppend(a[1..], b);
    }
  }

  lemma {:induction false} ConcatChunks(token: seq<Byte>)
    ensures Concat(Chunks(token)) == token
    decreases |token|
  {
    if |token| <= 255 {
      assert Concat([token]) == token + [];
    } else {
      ConcatChunks(token[255..]);
      assert Chunks(token)[1..] == Chunks(token[255..]);
    }
  }

  lemma {:induction false} ConcatAllChunks(tokens: seq<seq<Byte>>)
    ensures Concat(AllChunks(tokens)) == Concat(tokens)
  {
    if tokens != [] {
      ConcatAllChunks(tokens[1..]);
      ConcatChunks(tokens[0]);
      ConcatAppend(Chunks(tokens[0]), AllChunks(tokens[1..]));
    }
  }

  lemma {:induction false} ShortTokensStay(tokens: seq<seq<Byte>>)
    requires forall c :: c in tokens ==> |c| <= 255
    ensures AllChunks(tokens) == tokens
  {
    if tokens != [] {
      ShortTokensStay(tokens[1..]);
    }
  }

  /** The wire form is a valid sequence of character-strings; they carry the tokens' bytes; and encoding the decoded
      strings gives the same wire form again. */
  lemma WireRoundTrip(tokens: seq<seq<Byte>>)
    ensures var decoded := Decode(Wire(tokens));
            && decoded.Some?
            && (forall c :: c in decoded.value ==> |c| <= 255)
            && Concat(decoded.value) == Concat(tokens)
            && Wire(decoded.value) == Wire(tokens)
  {
    DecodeStrings(AllChunks(tokens));
    ConcatAllChunks(tokens);
    ShortTokensStay(AllChunks(tokens));
  }

  /** The number of length bytes that a token of `n` bytes costs: one for each 255 bytes begun, and at least one. */
  function Overhead(n: nat): nat {
    if n == 0 then 1 else (n + 254) / 255
  }

  function TotalLength(tokens: seq<seq<Byte>>): nat {
    if tokens == [] then 0 else |tokens[0]| + Overhead(|tokens[0]|) + TotalLength(tokens[1..])
  }

  lemma {:induction false} TokenLength(token: seq<Byte>)
    ensures |Strings(Chunks(token))| == |token| + Overhead(|token|)
    decreases |token|
  {
    if |token| <= 255 {
      assert Strings([token]) == CharString(token) + [];
    } else {
      TokenLength(token[255..]);
      assert Chunks(token)[1..] == Chunks(token[255..]);
      assert Overhead(|token|) == 1 + Overhead(|token| - 255);
    }
  }

  lemma {:induction false} WireLength(tokens: seq<seq<Byte>>)
    ensures |Wire(tokens)| == TotalLength(tokens)
  {
    if tokens != [] {
      WireLength(tokens[1..]);
      TokenLength(tokens[0]);
      StringsAppend(Chunks(tokens[0]), AllChunks(tokens[1..]));
    }
  }
}
