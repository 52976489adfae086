/** The session description the recording pipeline reads its media from
    (an SDP document, RFC 4566), the per-session file that holds it, and
    the two operations that create and delete that file together with the
    session's ports. The filesystem is a map from path to file contents. */
module Sdp {
  import opened Wrappers
  import opened Text
  import opened PortPool

  /** A port as a template literal renders it: its digits, or the text
      `undefined` for a kind whose claim found no free row. */
  function PortText(p: Option<int>): string
  {
    match p
    case Some(v) => IntToString(v)
    case None => "undefined"
  }

  const OpusRtpMap: string := "a=rtpmap:111 opus/48000/2"
  const OpusFmtp: string := "a=fmtp:111 minptime=10;useinbandfec=1"
  const Vp8RtpMap: string := "a=rtpmap:96 VP8/90000"

  /** The `m=` line of RFC 4566 section 5.14: media, port, profile, payload
      type. */
  function MediaLine(media: string, port: Option<int>, payload: string): string
  {
    "m=" + media + " " + PortText(port) + " RTP/AVPF " + payload
  }

  /** The `a=rtcp:` attribute of RFC 3605 section 2.1 naming the RTCP port. */
  function RtcpLine(port: Option<int>): string
  {
    "a=rtcp:" + PortText(port)
  }

  /** The document's lines, in order: session header, the audio section,
      then the video section. */
  function SdpLines(p: Ports): seq<string>
  {
    ["v=0", "o=- 0 0 IN IP4 127.0.0.1", "s=-", "c=IN IP4 127.0.0.1", "t=0 0",
     MediaLine("audio", p.audio, "111"), RtcpLine(p.audioRtcp), OpusRtpMap, OpusFmtp,
     MediaLine("video", p.video, "96"), RtcpLine(p.videoRtcp), Vp8RtpMap]
  }

  /** `SDPString(ports)`: the twelve lines of the source's template literal
      separated by newlines, with no trailing newline. */
  function SdpString(p: Ports): string
  {
    Join(SdpLines(p), '\n')
  }

  lemma PortTextPlain(p: Option<int>)
    ensures '\n' !in PortText(p) && ' ' !in PortText(p)
  {
    if p.Some? {
      var s := IntToString(p.value);
      assert forall k :: 0 <= k < |s| ==> s[k] != '\n' && s[k] != ' ';
    }
  }

  /** The document is its lines joined by newlines: twelve lines, no blank
      line, no trailing newline. */
  lemma SdpStringLines(p: Ports)
    ensures Split(SdpString(p), '\n') == SdpLines(p)
  {
    var l := SdpLines(p);
    forall i | 0 <= i < |l|
      ensures '\n' !in l[i]
    {
      LinePlain(p, i);
    }
    SplitJoin(l, '\n');
  }

  /** No line of the document holds a newline. */
  lemma LinePlain(p: Ports, i: nat)
    requires i < 12
    ensures '\n' !in SdpLines(p)[i]
  {
    if i < 5 {
      HeaderLinePlain(p, i);
    } else if i < 9 {
      AudioLinePlain(p, i);
    } else {
      VideoLinePlain(p, i);
    }
  }

  lemma HeaderLinePlain(p: Ports, i: nat)
    requires i < 5
    ensures '\n' !in SdpLines(p)[i]
  {
    var l := SdpLines(p);
    if i < 3 {
      assert '\n' !in "v=0" && '\n' !in "s=-";
      assert '\n' !in "o=- 0 0 IN IP4 127.0.0.1";
    } else {
      assert '\n' !in "c=IN IP4 127.0.0.1" && '\n' !in "t=0 0";
    }
  }

  lemma AudioLinePlain(p: Ports, i: nat)
    requires 5 <= i < 9
    ensures '\n' !in SdpLines(p)[i]
  {
    if i == 5 {
      MediaLinePlain("audio", p.audio, "111");
    } else if i == 6 {
      RtcpLinePlain(p.audioRtcp);
    } else {
      CodecLinesPlain();
    }
  }

  lemma VideoLinePlain(p: Ports, i: nat)
    requires 9 <= i < 12
    ensures '\n' !in SdpLines(p)[i]
  {
    if i == 9 {
      MediaLinePlain("video", p.video, "96");
    } else if i == 10 {
      RtcpLinePlain(p.videoRtcp);
    } else {
      CodecLinesPlain();
    }
  }

  lemma CodecLinesPlain()
    ensures '\n' !in OpusRtpMap && '\n' !in OpusFmtp && '\n' !in Vp8RtpMap
  {
    assert '\n' !in OpusRtpMap;
    assert '\n' !in OpusFmtp;
  }

  lemma MediaLinePlain(media: string, port: Option<int>, payload: string)
    requires '\n' !in media && '\n' !in payload
    ensures '\n' !in MediaLine(media, port, payload)
  {
    PortTextPlain(port);
  }

  lemma RtcpLinePlain(port: Option<int>)
    ensures '\n' !in RtcpLine(port)
  {
    PortTextPlain(port);
  }

  // ---------------------------------------------------------------------
  // Reading the ports back
  // ---------------------------------------------------------------------

  /** The port of an `m=<media> <port> RTP/AVPF <payload>` line. */
  function ReadMediaPort(line: string, media: string, payload: string): Option<int>
  {
    var w := Split(line, ' ');
    if |w| == 4 && w[0] == "m=" + media && w[2] == "RTP/AVPF" && w[3] == payload then ParseInt(w[1])
    else None
  }

  /** The port of an `a=rtcp:<port>` line. */
  function ReadRtcpPort(line: string): Option<int>
  {
    if StartsWith(line, "a=rtcp:") then ParseInt(line[7..]) else None
  }

  /** What a consumer of the file learns from it: the four ports, from the
      audio `m=` line and the line after it, and the video `m=` line and the
      line after it; `None` when the document does not have that shape or a
      port is not a number. */
  function ReadPorts(doc: string): Option<Ports>
  {
    var lines := Split(doc, '\n');
    if |lines| != 12 then None
    else
      var a := ReadMediaPort(lines[5], "audio", "111");
      var ar := ReadRtcpPort(lines[6]);
      var v := ReadMediaPort(lines[9], "video", "96");
      var vr := ReadRtcpPort(lines[10]);
      if a.Some? && ar.Some? && v.Some? && vr.Some? then Some(Ports(a, ar, v, vr))
      else None
  }

  lemma ReadMediaLine(media: string, port: Option<int>, payload: string)
    requires ' ' !in media && ' ' !in payload
    ensures ReadMediaPort(MediaLine(media, port, payload), media, payload)
            == if port.Some? then Some(port.value) else None
  {
    MediaLineWords(media, port, payload);
    if port.Some? {
      ParseIntToString(port.value);
    }
  }

  /** An `m=` line splits at its spaces into its four fields. */
  lemma MediaLineWords(media: string, port: Option<int>, payload: string)
    requires ' ' !in media && ' ' !in payload
    ensures Split(MediaLine(media, port, payload), ' ') == ["m=" + media, PortText(port), "RTP/AVPF", payload]
  {
    PortTextPlain(port);
    var tail := "RTP/AVPF" + [' '] + payload;
    var rest := PortText(port) + [' '] + tail;
    assert MediaLine(media, port, payload) == ("m=" + media) + [' '] + rest;
    SplitCons("m=" + media, ' ', rest);
    SplitCons(PortText(port), ' ', tail);
    SplitCons("RTP/AVPF", ' ', payload);
    SplitSingle(payload, ' ');
  }

  lemma ReadRtcpLine(port: Option<int>)
    ensures ReadRtcpPort(RtcpLine(port)) == if port.Some? then Some(port.value) else None
  {
    assert RtcpLine(port)[7..] == PortText(port);
    if port.Some? {
      ParseIntToString(port.value);
    }
  }

  /** A document split into the builder's lines yields the four ports
      exactly when every claim returned one. */
  lemma ReadPortsOfLines(doc: string, p: Ports)
    requires Split(doc, '\n') == SdpLines(p)
    ensures ReadPorts(doc) == if p.audio.Some? && p.audioRtcp.Some? && p.video.Some? && p.videoRtcp.Some?
                              then Some(p) else None
  {
    var lines := SdpLines(p);
    assert lines[5] == MediaLine("audio", p.audio, "111") && lines[6] == RtcpLine(p.audioRtcp);
    assert lines[9] == MediaLine("video", p.video, "96") && lines[10] == RtcpLine(p.videoRtcp);
    ReadMediaLine("audio", p.audio, "111");
    ReadMediaLine("video", p.video, "96");
    ReadRtcpLine(p.audioRtcp);
    ReadRtcpLine(p.videoRtcp);
  }

  /** Every port the builder writes is read back from the document it
      produced, provided every claim returned a port. */
  lemma ReadPortsRoundTrip(p: Ports)
    requires p.audio.Some? && p.audioRtcp.Some? && p.video.Some? && p.videoRtcp.Some?
    ensures ReadPorts(SdpString(p)) == Some(p)
  {
    SdpStringLines(p);
    ReadPortsOfLines(SdpString(p), p);
  }

  /** When the pool ran out, the document carries `undefined` where a port
      belongs and no port set can be read from it. */
  lemma ReadPortsUndefined(p: Ports)
    requires p.audio.None? || p.audioRtcp.None? || p.video.None? || p.videoRtcp.None?
    ensures ReadPorts(SdpString(p)) == None
  {
    SdpStringLines(p);
    ReadPortsOfLines(SdpString(p), p);
  }

  // ---------------------------------------------------------------------
  // The session file: createSDP / deleteSDP
  // ---------------------------------------------------------------------

  /** File paths and their contents. */
  type Files = map<string, string>

  /** `${__dirname}/sdps/input-vp8-${sessionId}.sdp`, shared by creation
      and deletion. */
  function SdpPath(dir: string, session: string): string
  {
    dir + "/sdps/input-vp8-" + session + ".sdp"
  }

  /** Distinct sessions never share a description file. */
  lemma SdpPathInjective(dir: string, s1: string, s2: string)
    requires SdpPath(dir, s1) == SdpPath(dir, s2)
    ensures s1 == s2
  {
    var pre := dir + "/sdps/input-vp8-";
    assert SdpPath(dir, s1) == pre + s1 + ".sdp";
    assert |s1| == |s2|;
    assert s1 == SdpPath(dir, s1)[|pre|..|pre| + |s1|];
  }

  /** What `createSDP` resolves to. */
  datatype SdpConfig = SdpConfig(filePath: string, ports: Ports)

  /** The error `unlinkSync` throws for a missing file. */
  function UnlinkError(path: string): string
  {
    "ENOENT: no such file or directory, unlink '" + path + "'"
  }

  /** `createSDP(sessionId)`: claims the session's four ports, then writes
      the description. A rejected claim writes nothing; a failed write
      leaves the claimed ports claimed. */
  function CreateSdp(t: Table, files: Files, dir: string, session: string, now: Timestamp,
                     faults: Faults, writeFault: Option<string>): (r: (Table, Files, Result<SdpConfig, string>))
    ensures r.0 == ClaimAll(t, session, now, faults).0
    ensures ClaimAll(t, session, now, faults).1.Failure? ==>
              r.1 == files && r.2 == Failure(ClaimAll(t, session, now, faults).1.error)
    ensures r.2.Success? <==> ClaimAll(t, session, now, faults).1.Success? && writeFault.None?
    ensures r.2.Success? ==>
              && r.2.value == SdpConfig(SdpPath(dir, session), ClaimAll(t, session, now, faults).1.value)
              && r.1 == files[SdpPath(dir, session) := SdpString(r.2.value.ports)]
    ensures r.2.Failure? ==> r.1 == files
  {
    var (t1, claimed) := ClaimAll(t, session, now, faults);
    var path := SdpPath(dir, session);
    match claimed
    case Failure(e) => (t1, files, Failure(e))
    case Success(ports) =>
      if writeFault.Some? then (t1, files, Failure(writeFault.value))
      else (t1, files[path := SdpString(ports)], Success(SdpConfig(path, ports)))
  }

  /** `deleteSDP(sessionId)`: unlinks the description, and only when that
      succeeded releases the session's ports. A missing file throws before
      any port is released. */
  function DeleteSdp(t: Table, files: Files, dir: string, session: string,
                     releaseFault: Option<string>): (r: (Table, Files, Result<bool, string>))
    ensures SdpPath(dir, session) !in files ==>
              r == (t, files, Failure(UnlinkError(SdpPath(dir, session))))
    ensures SdpPath(dir, session) in files ==>
              && r.1 == files - {SdpPath(dir, session)}
              && (r.0, r.2) == Release(t, session, releaseFault)
  {
    var path := SdpPath(dir, session);
    if path !in files then (t, files, Failure(UnlinkError(path)))
    else
      var (t1, released) := Release(t, session, releaseFault);
      (t1, files - {path}, released)
  }

  /** The description written for a session names the ports the session
      was given, whenever the pool had four free rows for it. */
  lemma CreatedFileNamesPorts(t: Table, files: Files, dir: string, session: string, now: Timestamp)
    requires forall j :: 0 <= j < |t| ==> t[j].sessionId != Some(session)
    requires |FreeIndices(t)| >= 4
    ensures var r := CreateSdp(t, files, dir, session, now, NoFaults, None);
            && r.2.Success?
            && ReadPorts(r.1[SdpPath(dir, session)]) == Some(r.2.value.ports)
            && r.2.value.ports == Ports(Some(FreeValues(t)[0]), Some(FreeValues(t)[1]),
                                        Some(FreeValues(t)[2]), Some(FreeValues(t)[3]))
  {
    ClaimAllFromFree(t, session, now);
    var r := CreateSdp(t, files, dir, session, now, NoFaults, None);
    ReadPortsRoundTrip(r.2.value.ports);
  }

  /** Creating and later deleting a session's description, without faults,
      leaves the filesystem as it was and no row owned by the session. */
  lemma CreateThenDelete(t: Table, files: Files, dir: string, session: string, now: Timestamp)
    requires SdpPath(dir, session) !in files
    requires forall j :: 0 <= j < |t| ==> t[j].sessionId != Some(session)
    ensures var c := CreateSdp(t, files, dir, session, now, NoFaults, None);
            var d := DeleteSdp(c.0, c.1, dir, session, None);
            && d.1 == files
            && d.2 == Success(true)
            && forall j :: 0 <= j < |d.0| ==> d.0[j].sessionId != Some(session)
  {
    var c := CreateSdp(t, files, dir, session, now, NoFaults, None);
    CreateSdpFresh(t, files, dir, session, now);
    var path := SdpPath(dir, session);
    PutThenRemove(files, path, SdpString(c.2.value.ports));
  }

  /** Removing a key just added to a map that lacked it restores the map. */
  lemma PutThenRemove(files: Files, path: string, content: string)
    requires path !in files
    ensures files[path := content] - {path} == files
  {
    assert (files[path := content] - {path}).Keys == files.Keys;
  }

  lemma CreateSdpFresh(t: Table, files: Files, dir: string, session: string, now: Timestamp)
    requires forall j :: 0 <= j < |t| ==> t[j].sessionId != Some(session)
    ensures var c := CreateSdp(t, files, dir, session, now, NoFaults, None);
            c.2.Success? && c.1 == files[SdpPath(dir, session) := SdpString(c.2.value.ports)]
  {
    ClaimKindsFresh(t, ClaimOrder, session, now, NoPorts);
  }
}
