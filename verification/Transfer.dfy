/** The framing of `get` and `put` (src/builtins.c): one base64 line per read,
    closed by a line holding a single dot. */
module Transfer {
  import opened Words
  import opened Base64
  import opened Options
  import opened Text

  const GET_CHUNK := 3072
  const PUT_READ := 4095

  function Flatten(chunks: seq<seq<byte>>): seq<byte> {
    if chunks == [] then [] else chunks[0] + Flatten(chunks[1..])
  }

  lemma {:induction false} FlattenAppend(chunks: seq<seq<byte>>, c: seq<byte>)
    ensures Flatten(chunks + [c]) == Flatten(chunks) + c
  {
    if chunks == [] {
      assert [c][1..] == [] && [] + c == c && c + [] == c;
    } else {
      assert (chunks + [c])[1..] == chunks[1..] + [c];
      FlattenAppend(chunks[1..], c);
      assert chunks[0] + (Flatten(chunks[1..]) + c) == (chunks[0] + Flatten(chunks[1..])) + c;
    }
  }

  // ---------------------------------------------------------------- get

  /** What `get` sends for a file that was read in these chunks. */
  function Lines(chunks: seq<seq<byte>>): string {
    if chunks == [] then "" else Encode(chunks[0]) + "\n" + Lines(chunks[1..])
  }

  lemma {:induction false} LinesAppend(chunks: seq<seq<byte>>, c: seq<byte>)
    ensures Lines(chunks + [c]) == Lines(chunks) + (Encode(c) + "\n")
  {
    hide Encode;
    if chunks == [] {
      assert [c][1..] == [];
    } else {
      assert (chunks + [c])[1..] == chunks[1..] + [c];
      LinesAppend(chunks[1..], c);
    }
  }

  /** cmd_get over a file that opens; every read returns 1 to 3072 bytes or fails.
      A failing read (`cut`) ends the stream like the end of the file does, so the
      receiver takes the part read so far for the whole. */
  method CmdGet(clean: bool, file: seq<byte>) returns (sent: string, ghost chunks: seq<seq<byte>>, ghost cut: bool)
    ensures Flatten(chunks) <= file
    ensures Flatten(chunks) == file <==> !cut
    ensures forall c :: c in chunks ==> 1 <= |c| <= GET_CHUNK
    ensures sent == Lines(chunks) + ".\n"
    ensures Receive(sent) == Some(Flatten(chunks))
    ensures clean ==> !cut
  {
    sent, chunks, cut := "", [], false;
    var pos := 0;
    assert Flatten(chunks) == file[..pos] && sent == Lines(chunks);
    hide Encode, Flatten, Lines, Receive;
    while pos < |file|
      invariant 0 <= pos <= |file|
      invariant Flatten(chunks) == file[..pos]
      invariant forall c :: c in chunks ==> 1 <= |c| <= GET_CHUNK
      invariant sent == Lines(chunks) && !cut
    {
      var failed: bool := *;
      if failed && !clean {
        cut := true;
        break; // read failed
      }
      var c := ReadChunk(file, pos);
      var line := EncodeRead(c);
      FlattenAppend(chunks, c);
      LinesAppend(chunks, c);
      sent := sent + (line + "\n");
      chunks := chunks + [c];
      pos := pos + |c|;
    }
    assert !cut ==> file[..pos] == file;
    sent := sent + ".\n";
    GetIsReceived(chunks);
  }

  /** read(fd, buf, 3072) before the end of the file: any number of bytes. */
  method ReadChunk(file: seq<byte>, pos: nat) returns (c: seq<byte>)
    requires pos < |file|
    ensures 1 <= |c| <= GET_CHUNK && pos + |c| <= |file|
    ensures file[..pos + |c|] == file[..pos] + c
  {
    var r: int := *;
    if !(1 <= r <= GET_CHUNK && pos + r <= |file|) {
      r := 1;
    }
    c := file[pos..pos + r];
  }

  /** One read of `get`, through its two fixed buffers. */
  method EncodeRead(c: seq<byte>) returns (line: string)
    requires |c| <= GET_CHUNK
    ensures line == Encode(c)
  {
    hide Encode;
    var buf := new byte[GET_CHUNK];
    var out := new char[4096];
    forall k | 0 <= k < |c| {
      buf[k] := c[k];
    }
    assert buf[..|c|] == c;
    var enc := EncodeBlock(buf, |c|, out);
    line := out[..enc];
  }

  /** The reference receiver: split at newlines, stop at ".", decode each line. */
  function Receive(s: string): Option<seq<byte>>
    decreases |s|
  {
    var i := NewlineAt(s);
    if i == |s| then None
    else if s[..i] == "." then Some([])
    else Join(Decode(s[..i]), Receive(s[i + 1..]))
  }

  lemma FirstLine(line: string, rest: string)
    requires '\n' !in line
    ensures NewlineAt(line + "\n" + rest) == |line|
  {
    var s := line + "\n" + rest;
    assert s[|line|] == '\n';
    assert forall k :: 0 <= k < |line| ==> s[k] == line[k] && line[k] in line;
  }

  /** An encoding is neither the end marker nor more than one line. */
  lemma EncodingIsDataLine(c: seq<byte>)
    ensures '\n' !in Encode(c) && Encode(c) != "." && |Encode(c)| % 4 == 0
    ensures |c| <= GET_CHUNK ==> |Encode(c)| <= 4096
  {
    hide Encode;
    EncodedChars(c);
    EncodedLength(c);
    assert Rev('\n') == -1;
  }

  /** Every stream `get` can send is received as the file. */
  lemma {:induction false} GetIsReceived(chunks: seq<seq<byte>>)
    ensures Receive(Lines(chunks) + ".\n") == Some(Flatten(chunks))
  {
    hide Encode, Decode;
    if chunks == [] {
      var s := Lines(chunks) + ".\n";
      FirstLine(".", "");
      assert s == "." + "\n" + "" && s[..1] == ".";
    } else {
      var line := Encode(chunks[0]);
      var rest := Lines(chunks[1..]) + ".\n";
      var s := Lines(chunks) + ".\n";
      assert s == line + "\n" + rest;
      EncodingIsDataLine(chunks[0]);
      FirstLine(line, rest);
      assert s[..|line|] == line && s[|line| + 1..] == rest;
      RoundTrip(chunks[0]);
      GetIsReceived(chunks[1..]);
    }
  }

  // ---------------------------------------------------------------- put

  /** The line `put` sees in one read: everything up to the first newline. */
  function LineOf(read: string): string {
    read[..NewlineAt(read)]
  }

  /** What `put` stores for a sequence of reads (none left: end of input). */
  function Stored(input: seq<string>): seq<byte> {
    if input == [] then []
    else
      var line := LineOf(input[0]);
      if line == "." || Decode(line) == None then []
      else Decode(line).value + Stored(input[1..])
  }

  /** cmd_put over a destination that opens; reads hold 1 to 4095 NUL-free bytes. */
  method CmdPut(clean: bool, input: seq<string>) returns (file: seq<byte>, writeError: bool)
    requires forall r :: r in input ==> 1 <= |r| <= PUT_READ
    ensures file <= Stored(input)
    ensures !writeError ==> file == Stored(input)
    ensures clean ==> !writeError
  {
    file, writeError := [], false;
    var i := 0;
    assert input[i..] == input;
    hide Decode, Stored;
    while i < |input|
      invariant 0 <= i <= |input|
      invariant file + Stored(input[i..]) == Stored(input)
    {
      StoredStep(input, i);
      assert input[i] in input;
      var line := LineOf(input[i]);
      if line == "." {
        return;
      }
      var bin := DecodeRead(line);
      if bin == None {
        return;
      }
      var failed: bool := *;
      if failed && !clean {
        var n: int := *;
        if !(0 <= n < |bin.value|) {
          n := 0;
        }
        Regroup(file, bin.value, Stored(input[i + 1..]), n);
        file := file + bin.value[..n];
        writeError := true;
        return;
      }
      Regroup(file, bin.value, Stored(input[i + 1..]), 0);
      file := file + bin.value;
      i := i + 1;
    }
    assert Stored(input[i..]) == [] by {
      StoredStep(input, i);
    }
  }

  lemma Regroup(a: seq<byte>, b: seq<byte>, c: seq<byte>, n: nat)
    requires n <= |b|
    ensures a + (b + c) == (a + b) + c
    ensures a + b[..n] <= a + (b + c)
  {
    assert a + (b + c) == (a + b[..n]) + (b[n..] + c);
  }

  lemma StoredStep(input: seq<string>, i: nat)
    requires i <= |input|
    ensures i == |input| ==> Stored(input[i..]) == []
    ensures i < |input| ==>
      var line := LineOf(input[i]);
      if line == "." || Decode(line) == None then Stored(input[i..]) == []
      else Stored(input[i..]) == Decode(line).value + Stored(input[i + 1..])
  {
    hide Decode;
    if i < |input| {
      assert input[i..][1..] == input[i + 1..];
    }
  }

  /** One read: only the text before its first newline counts, the end marker and a
      line that does not decode end the transfer. */
  lemma StoredLine(line: string, junk: string, more: seq<string>)
    requires '\n' !in line && (junk == "" || junk[0] == '\n')
    ensures Stored([line + junk] + more)
      == if line == "." || Decode(line) == None then [] else Decode(line).value + Stored(more)
  {
    hide Decode;
    var read := line + junk;
    var input := [read] + more;
    assert LineOf(read) == line by {
      assert forall k :: 0 <= k < |line| ==> read[k] == line[k] && line[k] in line;
      assert junk != "" ==> read[|line|] == '\n';
      assert read[..|line|] == line;
    }
    assert input[0] == read && input[1..] == more;
  }

  /** One line of `put`, through its fixed buffer. */
  method DecodeRead(line: string) returns (r: Option<seq<byte>>)
    requires |line| <= PUT_READ
    ensures r == Decode(line)
  {
    hide Decode;
    var bin := new byte[3072];
    var dec := DecodeBlock(line, bin);
    r := if dec < 0 then None else Some(bin[..dec]);
  }

  /** Delivering one line at a time: a read takes at most 4095 bytes of it. */
  function Deliver(line: string): seq<string> {
    if |line| <= PUT_READ then [line] else [line[..PUT_READ]] + Deliver(line[PUT_READ..])
  }

  function Delivered(chunks: seq<seq<byte>>): seq<string> {
    if chunks == [] then [".\n"] else Deliver(Encode(chunks[0]) + "\n") + Delivered(chunks[1..])
  }

  lemma ShortChunkIsStored(c: seq<byte>, more: seq<string>)
    requires |c| <= 3069
    ensures Stored(Deliver(Encode(c) + "\n") + more) == c + Stored(more)
  {
    hide Encode, Decode;
    var read := Encode(c) + "\n";
    EncodingIsDataLine(c);
    EncodedLength(c);
    FirstLine(Encode(c), "");
    assert read == Encode(c) + "\n" + "";
    assert LineOf(read) == Encode(c);
    RoundTrip(c);
    assert ([read] + more)[0] == read && ([read] + more)[1..] == more;
  }

  lemma LongChunkIsRefused(c: seq<byte>, more: seq<string>)
    requires 3070 <= |c| <= GET_CHUNK
    ensures Stored(Deliver(Encode(c) + "\n") + more) == []
  {
    hide Encode, Decode;
    var line := Encode(c) + "\n";
    EncodingIsDataLine(c);
    EncodedLength(c);
    assert |line| == 4097;
    var read := line[..PUT_READ];
    var input := Deliver(line) + more;
    assert input[0] == read;
    assert '\n' !in read;
    assert LineOf(read) == read && |read| % 4 == 3;
    OddLengthIsRefused(read);
  }

  lemma OddLengthIsRefused(s: string)
    requires |s| % 4 != 0
    ensures Decode(s) == None
  {
  }

  /** `put` fed with what `get` sends, line by line, stores the file exactly when
      no line came from a read of more than 3069 bytes: such a line is 4096
      characters long, more than `put` reads at once. */
  lemma {:induction false} PutUndoesGetIffChunksShort(chunks: seq<seq<byte>>)
    requires forall c :: c in chunks ==> 1 <= |c| <= GET_CHUNK
    ensures Stored(Delivered(chunks)) == Flatten(chunks) <==> forall c :: c in chunks ==> |c| <= 3069
  {
    hide Encode, Decode, Deliver;
    if chunks == [] {
      FirstLine(".", "");
      assert ".\n" == "." + "\n" + "" && LineOf(".\n") == ".";
    } else {
      var c, more := chunks[0], chunks[1..];
      assert c in chunks && forall d :: d in chunks <==> d == c || d in more;
      PutUndoesGetIffChunksShort(more);
      if |c| <= 3069 {
        ShortChunkIsStored(c, Delivered(more));
        assert (c + Stored(Delivered(more)))[|c|..] == Stored(Delivered(more));
        assert (c + Flatten(more))[|c|..] == Flatten(more);
      } else {
        LongChunkIsRefused(c, Delivered(more));
        assert |Flatten(chunks)| >= |c|;
      }
    }
  }
}
