/** Object keys under which finished recordings are uploaded. Two uploaders
    exist: the video uploader keeps the part of the local path after
    `results/`, the file uploader rebuilds a key from the last two
    `/`-separated segments. Only the key derivation is modelled; the upload
    itself is I/O. */
module ObjectKeys {
  import opened Wrappers
  import opened Text
  import Pipeline

  /** The directory name both uploaders treat as the root of the keys. */
  const ResultsMarker := "results/"

  /** What a template literal renders for a missing array element. */
  const Undefined := "undefined"

  // ---------------------------------------------------------------------
  // S3VideoUploader: `filePath.split('results/')[1]`
  // ---------------------------------------------------------------------

  /** The second piece of `path.split("results/")`: the text between the
      first marker and the next one (or the end), or `"undefined"` when the
      marker does not occur and there is no second piece. */
  function VideoKey(path: string): (key: string)
    ensures !Contains(path, ResultsMarker) ==> key == Undefined
    ensures !Contains(key, ResultsMarker)
  {
    match IndexOf(path, ResultsMarker)
    case None =>
      NoSlashNoMarker(Undefined);
      Undefined
    case Some(i) =>
      var rest := path[i + |ResultsMarker|..];
      match IndexOf(rest, ResultsMarker)
      case None => rest
      case Some(j) =>
        PrefixBeforeFirst(rest, ResultsMarker, j);
        rest[..j]
  }

  /** Text cut off before the first occurrence of `pat` does not contain it. */
  lemma PrefixBeforeFirst(s: string, pat: string, j: nat)
    requires |pat| > 0 && j <= |s|
    requires forall k :: 0 <= k < j ==> !OccursAt(s, pat, k)
    ensures !Contains(s[..j], pat)
  {
    forall k | 0 <= k <= j && OccursAt(s[..j], pat, k)
      ensures false
    {
      assert s[..j][k..k + |pat|] == s[k..k + |pat|];
      assert OccursAt(s, pat, k);
    }
  }

  /** The marker ends in `/`, so text without `/` cannot hold it. */
  lemma NoSlashNoMarker(s: string)
    requires '/' !in s
    ensures !Contains(s, ResultsMarker)
  {
    forall k | 0 <= k <= |s| && OccursAt(s, ResultsMarker, k)
      ensures false
    {
      MarkerEnd(s, k);
    }
  }

  /** An occurrence of the marker has its `/` seven places after its start. */
  lemma MarkerEnd(s: string, k: int)
    requires OccursAt(s, ResultsMarker, k)
    ensures s[k + 7] == '/'
  {
    assert s[k + 7] == s[k..k + 8][7];
  }

  /** The characters right after `prefix` are those of the marker. */
  lemma MarkerAt(prefix: string, rest: string, i: int)
    requires |prefix| <= i < |prefix| + |ResultsMarker|
    ensures (prefix + ResultsMarker + rest)[i] == ResultsMarker[i - |prefix|]
  {
  }

  /** No occurrence of the marker can start inside the last seven
      characters of a text that is followed by the marker: the marker's
      closing `/` appears nowhere else in it. */
  lemma NoStraddle(prefix: string, rest: string, k: int)
    requires |prefix| - |ResultsMarker| < k < |prefix| && 0 <= k
    ensures !OccursAt(prefix + ResultsMarker + rest, ResultsMarker, k)
  {
    var s := prefix + ResultsMarker + rest;
    if OccursAt(s, ResultsMarker, k) {
      MarkerEnd(s, k);
      MarkerAt(prefix, rest, k + 7);
    }
  }

  /** The marker first occurs right after a prefix that does not hold it. */
  lemma FirstMarkerAfter(prefix: string, rest: string)
    requires !Contains(prefix, ResultsMarker)
    ensures IndexOf(prefix + ResultsMarker + rest, ResultsMarker) == Some(|prefix|)
  {
    var s := prefix + ResultsMarker + rest;
    assert OccursAt(s, ResultsMarker, |prefix|) by {
      assert s[|prefix|..|prefix| + 8] == ResultsMarker;
    }
    forall k | 0 <= k < |prefix|
      ensures !OccursAt(s, ResultsMarker, k)
    {
      if k + 8 <= |prefix| {
        assert s[k..k + 8] == prefix[k..k + 8];
        assert !OccursAt(prefix, ResultsMarker, k);
      } else {
        NoStraddle(prefix, rest, k);
      }
    }
    var r := IndexOf(s, ResultsMarker);
    assert r.Some?;
    assert !(r.value < |prefix|);
    assert !(r.value > |prefix|);
  }

  /** For `<prefix>results/<rest>` with the marker in neither part, the key
      is exactly `<rest>`. */
  lemma VideoKeyOfSplit(prefix: string, rest: string)
    requires !Contains(prefix, ResultsMarker) && !Contains(rest, ResultsMarker)
    ensures VideoKey(prefix + ResultsMarker + rest) == rest
  {
    FirstMarkerAfter(prefix, rest);
    assert (prefix + ResultsMarker + rest)[|prefix| + |ResultsMarker|..] == rest;
  }

  /** With a second marker further on, the key stops right before it:
      only the text between the first two markers is kept. */
  lemma VideoKeyBetween(prefix: string, key: string, tail: string)
    requires !Contains(prefix, ResultsMarker) && !Contains(key, ResultsMarker)
    ensures VideoKey(prefix + ResultsMarker + key + ResultsMarker + tail) == key
  {
    var rest := key + ResultsMarker + tail;
    assert prefix + ResultsMarker + key + ResultsMarker + tail == prefix + ResultsMarker + rest;
    FirstMarkerAfter(prefix, rest);
    assert (prefix + ResultsMarker + rest)[|prefix| + |ResultsMarker|..] == rest;
    FirstMarkerAfter(key, tail);
    assert rest[..|key|] == key;
  }

  /** A recording's output path is uploaded under
      `chats/<room>/peers/<name>/video.webm`, provided the marker occurs
      nowhere but in the fixed `recording/results/` part of the path. */
  lemma VideoKeyOfOutputPath(dir: string, roomId: string, name: string)
    requires !Contains(dir + "/recording/", ResultsMarker)
    requires !Contains("chats/" + roomId + "/peers/" + name + "/video.webm", ResultsMarker)
    ensures VideoKey(Pipeline.OutputPath(dir, roomId, name)) == "chats/" + roomId + "/peers/" + name + "/video.webm"
  {
    var prefix := dir + "/recording/";
    var rest := "chats/" + roomId + "/peers/" + name + "/video.webm";
    assert Pipeline.OutputPath(dir, roomId, name) == prefix + ResultsMarker + rest;
    VideoKeyOfSplit(prefix, rest);
  }

  // ---------------------------------------------------------------------
  // S3FileUploader: `chats/${segs[len-2]}/peers/${segs[len-1]}`
  // ---------------------------------------------------------------------

  /** The last `/`-separated segment of a path. */
  function LastSegment(path: string): string
  {
    var segs := Split(path, '/');
    segs[|segs| - 1]
  }

  /** The second-to-last segment, or `"undefined"` for a path without `/`. */
  function ParentSegment(path: string): string
  {
    var segs := Split(path, '/');
    if |segs| >= 2 then segs[|segs| - 2] else Undefined
  }

  /** The key the file uploader builds from a path. */
  function FileKey(path: string): string
  {
    "chats/" + ParentSegment(path) + "/peers/" + LastSegment(path)
  }

  /** Every file key starts with `chats/` and holds `/peers/` right after
      the parent segment. */
  lemma FileKeyShape(path: string)
    ensures StartsWith(FileKey(path), "chats/")
    ensures OccursAt(FileKey(path), "/peers/", 6 + |ParentSegment(path)|)
  {
    var key := FileKey(path);
    assert key[..6] == "chats/";
    assert key[6 + |ParentSegment(path)|..6 + |ParentSegment(path)| + 7] == "/peers/";
  }

  /** A path `<p>/<a>/<b>` whose last two segments hold no `/` splits into
      the segments of `p` followed by `a` and `b`. */
  lemma SplitLastTwo(p: string, a: string, b: string)
    requires '/' !in a && '/' !in b
    ensures var segs := Split(p + "/" + a + "/" + b, '/');
            |segs| >= 2 && segs[|segs| - 2] == a && segs[|segs| - 1] == b
  {
    assert p + "/" + a + "/" + b == p + ['/'] + (a + ['/'] + b);
    SplitCons(a, '/', b);
    SplitSingle(b, '/');
    SplitAppend(p, '/', a + ['/'] + b);
    EndsWithPair(Split(p, '/'), a, b, Split(p + "/" + a + "/" + b, '/'));
  }

  lemma EndsWithPair(xs: seq<string>, a: string, b: string, segs: seq<string>)
    requires segs == xs + ([a] + [b])
    ensures |segs| >= 2 && segs[|segs| - 2] == a && segs[|segs| - 1] == b
  {
  }

  /** The key of `<p>/<a>/<b>` is `chats/<a>/peers/<b>` whatever `p` is:
      earlier segments have no effect. */
  lemma FileKeyOfLastTwo(p: string, a: string, b: string)
    requires '/' !in a && '/' !in b
    ensures FileKey(p + "/" + a + "/" + b) == "chats/" + a + "/peers/" + b
  {
    SplitLastTwo(p, a, b);
  }

  /** Two paths ending in the same two segments share a key. */
  lemma FileKeySameTail(p: string, q: string, a: string, b: string)
    requires '/' !in a && '/' !in b
    ensures FileKey(p + "/" + a + "/" + b) == FileKey(q + "/" + a + "/" + b)
  {
    FileKeyOfLastTwo(p, a, b);
    FileKeyOfLastTwo(q, a, b);
  }

  /** A path without `/` has no parent segment: the key names
      `undefined`. */
  lemma FileKeyOfSegment(b: string)
    requires '/' !in b
    ensures FileKey(b) == "chats/undefined/peers/" + b
  {
    SplitSingle(b, '/');
  }

  /** A path with one `/` has no earlier segment: `<a>/<b>` keys as
      `chats/<a>/peers/<b>`. */
  lemma FileKeyOfPair(a: string, b: string)
    requires '/' !in a && '/' !in b
    ensures FileKey(a + "/" + b) == "chats/" + a + "/peers/" + b
  {
    assert a + "/" + b == a + ['/'] + b;
    SplitCons(a, '/', b);
    SplitSingle(b, '/');
  }

  /** Applied to a recording's output path, the file uploader keeps only
      the peer name and the file name; the room id is not part of the key. */
  lemma FileKeyOfOutputPath(dir: string, roomId: string, name: string)
    requires '/' !in name
    ensures FileKey(Pipeline.OutputPath(dir, roomId, name)) == "chats/" + name + "/peers/video.webm"
  {
    var x := dir + "/recording/results/chats/" + roomId;
    assert "/peers" + "/" == "/peers/";
    assert "/" + "video.webm" == "/video.webm";
    Regroup(x, "/peers", "/", name, "/", "video.webm");
    FileKeyOfLastTwo(x + "/peers", name, "video.webm");
  }

  lemma Regroup(x: string, a: string, b: string, name: string, c: string, d: string)
    ensures x + (a + b) + name + (c + d) == (x + a) + b + name + c + d
  {
  }
}
