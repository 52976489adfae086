/** The pure pieces of the recording process supervisor: where the
    recording is written, the `gst-launch-1.0` argument list, the
    environment the process gets, the scan of its standard output for the
    readiness marker, and how its exit is classified. Spawning, streams,
    directories and timers are not modelled here. */
module Pipeline {
  import opened Wrappers
  import opened Text

  // ---------------------------------------------------------------------
  // Output location
  // ---------------------------------------------------------------------

  /** `${__dirname}/recording/results/chats/${room_id}/peers/${name}`. */
  function OutputDir(dir: string, roomId: string, name: string): string
  {
    dir + "/recording/results/chats/" + roomId + "/peers/" + name
  }

  /** `recOutputPath`: the container file inside the output directory. */
  function OutputPath(dir: string, roomId: string, name: string): string
  {
    OutputDir(dir, roomId, name) + "/video.webm"
  }

  // ---------------------------------------------------------------------
  // Argument list
  // ---------------------------------------------------------------------

  const ProgramName: string := "gst-launch-1.0"

  /** The words of the audio branch fragment
      `demux. ! queue ! rtpopusdepay ! opusparse ! mux.`. */
  const AudioBranchWords: seq<string> := ["demux.", "!", "queue", "!", "rtpopusdepay", "!", "opusparse", "!", "mux."]

  /** The words of the video branch fragment
      `demux. ! queue ! rtpvp8depay ! mux.`. */
  const VideoBranchWords: seq<string> := ["demux.", "!", "queue", "!", "rtpvp8depay", "!", "mux."]

  const DemuxWords: seq<string> := ["!", "sdpdemux", "timeout=0", "name=demux"]
  const MuxWords: seq<string> := ["webmmux", "name=mux"]

  /** The seven fragments of the source's argument array, in order. A
      branch whose consumer is missing is the empty string. */
  function ArgFragments(input: string, output: string, hasAudio: bool, hasVideo: bool): seq<string>
  {
    ["--eos-on-shutdown",
     Join(["filesrc", "location=" + input], ' '),
     Join(DemuxWords, ' '),
     Join(MuxWords, ' '),
     Join(["!", "filesink", "location=" + output], ' '),
     if hasAudio then Join(AudioBranchWords, ' ') else "",
     if hasVideo then Join(VideoBranchWords, ' ') else ""]
  }

  /** `[...].join(" ").trim().split(/\s+/)`: the words of the joined
      fragments. The joined string always starts with `--eos-on-shutdown`,
      so it is never blank and the split yields exactly its words. */
  function PipelineArgs(input: string, output: string, hasAudio: bool, hasVideo: bool): (r: seq<string>)
    ensures forall i :: 0 <= i < |r| ==> |r[i]| > 0 && NoSpace(r[i])
  {
    Words(Join(ArgFragments(input, output, hasAudio, hasVideo), ' '))
  }

  /** The fixed head of the argument list for space-free paths. */
  function HeadWords(input: string, output: string): seq<string>
  {
    ["--eos-on-shutdown"] + ["filesrc", "location=" + input] + DemuxWords + MuxWords
    + ["!", "filesink", "location=" + output]
  }

  function BranchWords(hasAudio: bool, hasVideo: bool): seq<string>
  {
    (if hasAudio then AudioBranchWords else []) + (if hasVideo then VideoBranchWords else [])
  }

  lemma {:induction false} AllWordsOfWords(ws: seq<string>)
    requires forall i :: 0 <= i < |ws| ==> |ws[i]| > 0 && NoSpace(ws[i])
    ensures AllWords(ws) == ws
    decreases |ws|
  {
    if |ws| > 0 {
      WordsOfWord(ws[0]);
      AllWordsOfWords(ws[1..]);
    }
  }

  /** Joining space-free words with single spaces and splitting again gives
      the words back. */
  lemma WordsOfWords(ws: seq<string>)
    requires forall i :: 0 <= i < |ws| ==> |ws[i]| > 0 && NoSpace(ws[i])
    ensures Words(Join(ws, ' ')) == ws
  {
    WordsOfJoin(ws);
    AllWordsOfWords(ws);
  }

  lemma NoSpaceConcat(a: string, b: string)
    requires NoSpace(a) && NoSpace(b)
    ensures NoSpace(a + b)
  {
    assert forall i :: 0 <= i < |a + b| ==> (a + b)[i] == if i < |a| then a[i] else b[i - |a|];
  }

  lemma WordsOfPair(a: string, b: string)
    requires |a| > 0 && NoSpace(a) && |b| > 0 && NoSpace(b)
    ensures Words(a + " " + b) == [a, b]
  {
    WordsOfSpaceJoin(a, ' ', b);
    WordsOfWord(a);
    WordsOfWord(b);
  }

  lemma WordsOfDemux()
    ensures Words(Join(DemuxWords, ' ')) == DemuxWords
  {
    assert NoSpace("!") && NoSpace("sdpdemux") && NoSpace("timeout=0") && NoSpace("name=demux");
    WordsOfWords(DemuxWords);
  }

  lemma WordsOfMux()
    ensures Words(Join(MuxWords, ' ')) == MuxWords
  {
    assert NoSpace("webmmux") && NoSpace("name=mux");
    WordsOfWords(MuxWords);
  }

  lemma WordsOfBranches(hasAudio: bool, hasVideo: bool)
    ensures Words(if hasAudio then Join(AudioBranchWords, ' ') else "")
            == if hasAudio then AudioBranchWords else []
    ensures Words(if hasVideo then Join(VideoBranchWords, ' ') else "")
            == if hasVideo then VideoBranchWords else []
  {
    if hasAudio {
      WordsOfAudioBranch();
    }
    if hasVideo {
      WordsOfVideoBranch();
    }
  }

  lemma WordsOfAudioBranch()
    ensures Words(Join(AudioBranchWords, ' ')) == AudioBranchWords
  {
    assert NoSpace("demux.") && NoSpace("!") && NoSpace("queue") && NoSpace("rtpopusdepay") && NoSpace("opusparse") && NoSpace("mux.");
    WordsOfWords(AudioBranchWords);
  }

  lemma WordsOfVideoBranch()
    ensures Words(Join(VideoBranchWords, ' ')) == VideoBranchWords
  {
    assert NoSpace("demux.") && NoSpace("!") && NoSpace("queue") && NoSpace("rtpvp8depay") && NoSpace("mux.");
    WordsOfWords(VideoBranchWords);
  }

  /** The words of seven space-joined fragments, fragment by fragment. */
  lemma WordsOfSeven(f0: string, f1: string, f2: string, f3: string, f4: string, f5: string, f6: string)
    ensures Words(Join([f0, f1, f2, f3, f4, f5, f6], ' '))
            == Words(f0) + (Words(f1) + (Words(f2) + (Words(f3) + (Words(f4) + (Words(f5) + Words(f6))))))
  {
    var fs := [f0, f1, f2, f3, f4, f5, f6];
    WordsOfJoin(fs);
    assert AllWords(fs[6..]) == Words(f6) by { assert fs[6..][1..] == []; }
    assert AllWords(fs[5..]) == Words(f5) + AllWords(fs[6..]) by { assert fs[5..][1..] == fs[6..]; }
    assert AllWords(fs[4..]) == Words(f4) + AllWords(fs[5..]) by { assert fs[4..][1..] == fs[5..]; }
    assert AllWords(fs[3..]) == Words(f3) + AllWords(fs[4..]) by { assert fs[3..][1..] == fs[4..]; }
    assert AllWords(fs[2..]) == Words(f2) + AllWords(fs[3..]) by { assert fs[2..][1..] == fs[3..]; }
    assert AllWords(fs[1..]) == Words(f1) + AllWords(fs[2..]) by { assert fs[1..][1..] == fs[2..]; }
    assert AllWords(fs) == Words(f0) + AllWords(fs[1..]);
  }

  lemma WordsOfSource(input: string)
    requires NoSpace(input)
    ensures Words(Join(["filesrc", "location=" + input], ' ')) == ["filesrc", "location=" + input]
  {
    assert NoSpace("filesrc") && NoSpace("location=");
    NoSpaceConcat("location=", input);
    WordsOfWords(["filesrc", "location=" + input]);
  }

  lemma WordsOfEos()
    ensures Words("--eos-on-shutdown") == ["--eos-on-shutdown"]
  {
    assert NoSpace("--eos-on-shutdown");
    WordsOfWord("--eos-on-shutdown");
  }

  /** A location option whose path is made of space-free pieces separated
      by single spaces: each piece becomes its own word. */
  lemma WordsOfLocation(first: string, rest: seq<string>)
    requires NoSpace(first)
    requires forall i :: 0 <= i < |rest| ==> |rest[i]| > 0 && NoSpace(rest[i])
    ensures Words("location=" + Join([first] + rest, ' ')) == ["location=" + first] + rest
  {
    assert NoSpace("location=");
    NoSpaceConcat("location=", first);
    var loc := "location=" + first;
    WordsOfWord(loc);
    var out := Join([first] + rest, ' ');
    if |rest| == 0 {
      assert out == first;
    } else {
      assert ([first] + rest)[1..] == rest;
      assert out == first + [' '] + Join(rest, ' ');
      AppendAssoc("location=", first, [' '], Join(rest, ' '));
      WordsOfSpaceJoin(loc, ' ', Join(rest, ' '));
      WordsOfWords(rest);
    }
  }

  /** The sink fragment: an output path with spaces in it becomes several
      arguments. */
  lemma WordsOfSink(first: string, rest: seq<string>)
    requires NoSpace(first)
    requires forall i :: 0 <= i < |rest| ==> |rest[i]| > 0 && NoSpace(rest[i])
    ensures Words(Join(["!", "filesink", "location=" + Join([first] + rest, ' ')], ' '))
            == ["!", "filesink", "location=" + first] + rest
  {
    var location := "location=" + Join([first] + rest, ' ');
    WordsOfSinkWords();
    WordsOfThree("!", "filesink", location);
    WordsOfLocation(first, rest);
    ThreeThenRest("!", "filesink", "location=" + first, rest, Words("!"), Words("filesink"), Words(location));
  }

  lemma ThreeThenRest<T>(a: T, b: T, c: T, rest: seq<T>, x: seq<T>, y: seq<T>, z: seq<T>)
    requires x == [a] && y == [b] && z == [c] + rest
    ensures x + y + z == [a, b, c] + rest
  {
  }

  lemma WordsOfSinkWords()
    ensures Words("!") == ["!"] && Words("filesink") == ["filesink"]
  {
    assert NoSpace("!") && NoSpace("filesink");
    WordsOfWord("!");
    WordsOfWord("filesink");
  }

  lemma WordsOfThree(a: string, b: string, c: string)
    ensures Words(Join([a, b, c], ' ')) == Words(a) + Words(b) + Words(c)
  {
    WordsOfJoin([a, b, c]);
    AllWordsThree(a, b, c);
  }

  lemma AllWordsThree(a: string, b: string, c: string)
    ensures AllWords([a, b, c]) == Words(a) + Words(b) + Words(c)
  {
    assert [a, b, c][1..] == [b, c];
    assert [b, c][1..] == [c];
    assert [c][1..] == [];
    assert AllWords([c]) == Words(c) + AllWords([]);
    assert AllWords([b, c]) == Words(b) + AllWords([c]);
  }

  lemma AppendAssoc(a: string, b: string, c: string, d: string)
    ensures a + (b + c + d) == a + b + c + d
  {
  }

  lemma ConcatShape<T>(a: seq<T>, b: seq<T>, c: seq<T>, d: seq<T>, e: seq<T>, f: seq<T>, g: seq<T>)
    ensures a + (b + (c + (d + ((e + f) + g)))) == a + b + c + d + e + f + g
  {
  }

  /** The argument list in general: the head up to the sink location, then
      the pieces of the output path, then the audio branch exactly when there
      is an audio consumer and the video branch exactly when there is a
      video consumer. With a space-free output path (`rest` empty) this is
      the intended list; an output path holding spaces reaches the process
      as several arguments, because the command line is split on whitespace
      after joining. */
  lemma PipelineArgsWords(input: string, first: string, rest: seq<string>, hasAudio: bool, hasVideo: bool)
    requires NoSpace(input) && NoSpace(first)
    requires forall i :: 0 <= i < |rest| ==> |rest[i]| > 0 && NoSpace(rest[i])
    ensures PipelineArgs(input, Join([first] + rest, ' '), hasAudio, hasVideo)
            == HeadWords(input, first) + rest + BranchWords(hasAudio, hasVideo)
  {
    var output := Join([first] + rest, ' ');
    var audio := if hasAudio then Join(AudioBranchWords, ' ') else "";
    var video := if hasVideo then Join(VideoBranchWords, ' ') else "";
    WordsOfSeven("--eos-on-shutdown", Join(["filesrc", "location=" + input], ' '), Join(DemuxWords, ' '),
                 Join(MuxWords, ' '), Join(["!", "filesink", "location=" + output], ' '), audio, video);
    WordsOfEos();
    WordsOfSource(input);
    WordsOfDemux();
    WordsOfMux();
    WordsOfSink(first, rest);
    WordsOfBranches(hasAudio, hasVideo);
    ConcatShape(["--eos-on-shutdown"], ["filesrc", "location=" + input], DemuxWords, MuxWords,
                ["!", "filesink", "location=" + first], rest, BranchWords(hasAudio, hasVideo));
  }

  /** For space-free paths the argument list is the fixed head followed by
      the branches of the media that have consumers, audio first. */
  lemma PipelineArgsShape(input: string, output: string, hasAudio: bool, hasVideo: bool)
    requires NoSpace(input) && NoSpace(output)
    ensures PipelineArgs(input, output, hasAudio, hasVideo)
            == HeadWords(input, output) + BranchWords(hasAudio, hasVideo)
  {
    assert Join([output] + [], ' ') == output;
    PipelineArgsWords(input, output, [], hasAudio, hasVideo);
  }

  /** For space-free paths, each depayloader is an argument exactly when
      its medium has a consumer. */
  lemma PipelineArgsBranches(input: string, output: string, hasAudio: bool, hasVideo: bool)
    requires NoSpace(input) && NoSpace(output)
    ensures "rtpopusdepay" in PipelineArgs(input, output, hasAudio, hasVideo) <==> hasAudio
    ensures "rtpvp8depay" in PipelineArgs(input, output, hasAudio, hasVideo) <==> hasVideo
  {
    PipelineArgsShape(input, output, hasAudio, hasVideo);
    var h := HeadWords(input, output);
    assert "rtpopusdepay" !in h && "rtpvp8depay" !in h by {
      assert h[2][0] == 'l' && h[11][0] == 'l';
      forall i | 0 <= i < |h|
        ensures h[i] != "rtpopusdepay" && h[i] != "rtpvp8depay"
      {
        if i == 2 || i == 11 {
          assert h[i][0] != "rtpopusdepay"[0];
        }
      }
    }
    assert AudioBranchWords[4] == "rtpopusdepay";
    assert VideoBranchWords[4] == "rtpvp8depay";
    assert "rtpvp8depay" !in AudioBranchWords && "rtpopusdepay" !in VideoBranchWords;
    var a := if hasAudio then AudioBranchWords else [];
    var v := if hasVideo then VideoBranchWords else [];
    assert PipelineArgs(input, output, hasAudio, hasVideo) == h + (a + v);
  }

  // ---------------------------------------------------------------------
  // Environment
  // ---------------------------------------------------------------------

  type Env = map<string, string>

  /** `{ GST_DEBUG: logLevel, ...process.env }`: later spread entries win,
      so an inherited `GST_DEBUG` overrides the configured level. */
  function MergeEnv(logLevel: string, inherited: Env): (r: Env)
    ensures r.Keys == inherited.Keys + {"GST_DEBUG"}
    ensures forall k :: k in inherited ==> r[k] == inherited[k]
    ensures "GST_DEBUG" !in inherited ==> r["GST_DEBUG"] == logLevel
  {
    map["GST_DEBUG" := logLevel] + inherited
  }

  // ---------------------------------------------------------------------
  // Standard output scan
  // ---------------------------------------------------------------------

  /** The line printed when the pipeline has reached the playing state. */
  const ReadyMarker: string := "Setting pipeline to PLAYING"

  function DropCr(s: string): (r: string)
    ensures '\n' !in s ==> '\n' !in r
  {
    if |s| > 0 && s[|s| - 1] == '\r' then s[..|s| - 1] else s
  }

  /** The pieces of `split(/\r?\n/)`: every piece that ended at a newline
      loses one carriage return before it; the last piece keeps its own. */
  function CrLfPieces(pieces: seq<string>): (r: seq<string>)
    requires forall i :: 0 <= i < |pieces| ==> '\n' !in pieces[i]
    ensures |r| == |pieces|
    ensures forall i :: 0 <= i < |r| ==> '\n' !in r[i]
  {
    if |pieces| <= 1 then pieces else [DropCr(pieces[0])] + CrLfPieces(pieces[1..])
  }

  function NonEmpty(xs: seq<string>): (r: seq<string>)
    ensures forall i :: 0 <= i < |r| ==> |r[i]| > 0
    ensures forall x :: x in r ==> x in xs
    ensures forall x :: x in xs && |x| > 0 ==> x in r
  {
    if |xs| == 0 then []
    else if |xs[0]| == 0 then NonEmpty(xs[1..])
    else [xs[0]] + NonEmpty(xs[1..])
  }

  /** `chunk.toString().split(/\r?\n/g).filter(Boolean)`. */
  function ChunkLines(chunk: string): (r: seq<string>)
    ensures forall i :: 0 <= i < |r| ==> |r[i]| > 0 && '\n' !in r[i]
  {
    NonEmpty(CrLfPieces(Split(chunk, '\n')))
  }

  /** How many one-second readiness timers a chunk of standard output
      schedules: one per line that starts with the marker. */
  function ReadyTimers(lines: seq<string>): (n: nat)
    ensures n > 0 <==> exists i :: 0 <= i < |lines| && StartsWith(lines[i], ReadyMarker)
    ensures n <= |lines|
  {
    if |lines| == 0 then 0
    else
      var rest := ReadyTimers(lines[1..]);
      assert forall i :: 1 <= i < |lines| ==> lines[i] == lines[1..][i - 1];
      (if StartsWith(lines[0], ReadyMarker) then 1 else 0) + rest
  }

  /** A chunk schedules readiness exactly when one of its lines starts with
      the marker. */
  predicate SignalsReady(chunk: string)
  {
    ReadyTimers(ChunkLines(chunk)) > 0
  }

  lemma {:induction false} NonEmptyKeeps(xs: seq<string>)
    requires forall i :: 0 <= i < |xs| ==> |xs[i]| > 0
    ensures NonEmpty(xs) == xs
    decreases |xs|
  {
    if |xs| > 0 {
      NonEmptyKeeps(xs[1..]);
    }
  }

  lemma {:induction false} CrLfPiecesKeeps(xs: seq<string>)
    requires forall i :: 0 <= i < |xs| ==> '\n' !in xs[i]
    requires forall i :: 0 <= i < |xs| - 1 ==> |xs[i]| == 0 || xs[i][|xs[i]| - 1] != '\r'
    ensures CrLfPieces(xs) == xs
    decreases |xs|
  {
    if |xs| > 1 {
      CrLfPiecesKeeps(xs[1..]);
    }
  }

  /** Lines written with `\n` endings are recovered one for one, as long as
      no line is empty or ends in a carriage return. */
  lemma ChunkLinesRoundTrip(lines: seq<string>)
    requires |lines| >= 1
    requires forall i :: 0 <= i < |lines| ==> |lines[i]| > 0 && '\n' !in lines[i]
    requires forall i :: 0 <= i < |lines| ==> lines[i][|lines[i]| - 1] != '\r'
    ensures ChunkLines(Join(lines, '\n')) == lines
  {
    SplitJoin(lines, '\n');
    CrLfPiecesKeeps(lines);
    NonEmptyKeeps(lines);
  }

  /** A chunk made of such lines signals readiness exactly when one of the
      lines starts with the marker. */
  lemma SignalsReadyLines(lines: seq<string>)
    requires |lines| >= 1
    requires forall i :: 0 <= i < |lines| ==> |lines[i]| > 0 && '\n' !in lines[i]
    requires forall i :: 0 <= i < |lines| ==> lines[i][|lines[i]| - 1] != '\r'
    ensures SignalsReady(Join(lines, '\n')) <==> exists i :: 0 <= i < |lines| && StartsWith(lines[i], ReadyMarker)
  {
    ChunkLinesRoundTrip(lines);
  }

  lemma OneLine(line: string)
    requires |line| > 0
    ensures NonEmpty([line]) == [line]
    ensures ReadyTimers([line]) > 0 <==> StartsWith(line, ReadyMarker)
  {
    assert [line][1..] == [];
    assert [line][0] == line;
  }

  lemma ChunkLinesUnended(line: string)
    requires |line| > 0 && '\n' !in line
    ensures ChunkLines(line) == [line]
  {
    SplitSingle(line, '\n');
    assert CrLfPieces([line]) == [line];
    OneLine(line);
  }

  /** The piece before a newline loses one trailing carriage return; the
      empty piece after the final newline is dropped. */
  lemma ChunkLinesEnded(first: string, line: string)
    requires |line| > 0 && '\n' !in first && DropCr(first) == line
    ensures ChunkLines(first + "\n") == [line]
  {
    assert first + "\n" == Join([first, ""], '\n');
    SplitJoin([first, ""], '\n');
    assert [first, ""][1..] == [""];
    assert CrLfPieces([first, ""]) == [line, ""];
    assert [line, ""][1..] == [""];
    assert NonEmpty([""]) == [] by { assert [""][1..] == []; }
    OneLine(line);
  }

  /** A chunk holding one line, ended by nothing, by `\n` or by `\r\n`,
      yields that line alone, and signals readiness exactly when the line
      starts with the marker. */
  lemma SingleLineChunk(line: string, ending: string)
    requires |line| > 0 && '\n' !in line && line[|line| - 1] != '\r'
    requires ending == "" || ending == "\n" || ending == "\r\n"
    ensures ChunkLines(line + ending) == [line]
    ensures SignalsReady(line + ending) <==> StartsWith(line, ReadyMarker)
  {
    if ending == "" {
      assert line + ending == line;
      ChunkLinesUnended(line);
    } else if ending == "\n" {
      ChunkLinesEnded(line, line);
    } else {
      var first := line + "\r";
      assert first[..|first| - 1] == line;
      assert '\n' !in first;
      assert line + ending == first + "\n";
      ChunkLinesEnded(first, line);
    }
    OneLine(line);
  }

  /** Chunks are scanned separately: a chunk without a newline that is
      shorter than the marker, such as the first half of a marker split
      across two chunks, never signals readiness. */
  lemma ShortChunkNotReady(chunk: string)
    requires '\n' !in chunk && |chunk| < |ReadyMarker|
    ensures !SignalsReady(chunk)
  {
    if |chunk| > 0 {
      ChunkLinesUnended(chunk);
      OneLine(chunk);
    } else {
      SplitSingle(chunk, '\n');
      assert CrLfPieces([chunk]) == [chunk];
      assert NonEmpty([chunk]) == [] by { assert [chunk][1..] == []; }
    }
  }

  // ---------------------------------------------------------------------
  // Exit classification
  // ---------------------------------------------------------------------

  /** `!signal || signal === "SIGINT"`: no terminating signal (null, or the
      falsy empty string), or the interrupt the stop path sends. */
  predicate CleanExit(signal: Option<string>)
  {
    signal.None? || signal.value == "" || signal.value == "SIGINT"
  }
}
