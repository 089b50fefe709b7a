/** The resumable response sender of the HTTP server: headers, file data and
    tag inserts are pushed through a TCP connection that may take any amount of
    them, or none, at every attempt. */
module HttpSender {
  import opened ByteList
  import opened SsiTags

  const NUM_FILE_HDR_STRINGS := 3
  const HTTPD_MAX_RETRIES := 4
  const HTTP_NO_DATA_TO_SEND := 0
  const HTTP_DATA_TO_SEND_CONTINUE := 1
  const HTTP_DATA_TO_SEND_BREAK := 2

  datatype Err = Ok | Mem | Other

  /** The TCP connection. Every answer it gives is arbitrary, so that what is
      proved of a sender holds for every schedule of buffer sizes and refusals;
      only an `ample` one takes everything at once. */
  class TcpPcb {
    const ample: bool
    /** Everything accepted so far, in order. */
    var stream: string
    ghost var stalls: nat      // refused writes and empty buffers so far
    ghost var shortened: nat   // writes of which only a part was accepted
    ghost var bodyWrites: nat  // accepted writes of file bytes and inserts

    constructor (ample: bool)
      ensures stream == "" && this.ample == ample
    {
      this.ample := ample;
      stream := "";
    }

    method Write(data: string) returns (err: Err)
      requires |data| <= 0xFFFF
      modifies this`stream, this`stalls
      ensures ample ==> err == Ok
      ensures stream == if err == Ok then old(stream) + data else old(stream)
      ensures stalls == old(stalls) + if err == Ok then 0 else 1
    {
      err := *;
      if ample {
        err := Ok;
      }
      if err == Ok {
        stream := stream + data;
      } else {
        stalls := stalls + 1;
      }
    }

    method Sndbuf() returns (n: nat)
      modifies this`stalls
      ensures n <= 0xFFFF && (ample ==> n == 0xFFFF)
      ensures stalls == old(stalls) + if n == 0 then 1 else 0
    {
      n :| 0 <= n <= 0xFFFF;
      if ample {
        n := 0xFFFF;
      }
      if n == 0 {
        stalls := stalls + 1;
      }
    }

    method QueueFull() returns (full: bool)
    {
      full := *;
    }

    method Mss() returns (n: nat)
      ensures 1 <= n <= 0xFFFF
    {
      n :| 1 <= n <= 0xFFFF;
    }
  }

  /** Offers `length` bytes at `ptr`, then half of them while memory is short.
      Either a non-empty prefix is accepted, or nothing is. */
  method HttpWrite(pcb: TcpPcb, buf: string, ptr: nat, length: nat) returns (err: Err, len: nat)
    requires length <= 0xFFFF && ptr + length <= |buf|
    modifies pcb`stream, pcb`stalls, pcb`shortened
    ensures pcb.ample ==> err == Ok && len == length
    ensures pcb.shortened == old(pcb.shortened) + if err == Ok && len < length then 1 else 0
    ensures len <= length && old(pcb.stream) <= pcb.stream
    ensures err == Ok && length > 0 ==> len > 0
    ensures err == Ok ==> pcb.stream == old(pcb.stream) + buf[ptr..ptr + len]
    ensures err != Ok ==> pcb.stream == old(pcb.stream)
    ensures pcb.stalls >= old(pcb.stalls) + if err == Ok then 0 else 1
  {
    len := length;
    if len == 0 {
      return Ok, 0;
    }
    while true
      invariant 0 < len <= length && (pcb.ample ==> len == length)
      invariant pcb.shortened == old(pcb.shortened)
      invariant pcb.stream == old(pcb.stream) && pcb.stalls >= old(pcb.stalls)
      decreases len
    {
      err := pcb.Write(buf[ptr..ptr + len]);
      if err == Mem {
        var sndbuf := pcb.Sndbuf();
        var full := pcb.QueueFull();
        if sndbuf == 0 || full {
          len := 1;
        } else {
          len := len / 2;
        }
      }
      if !(err == Mem && len > 1) {
        break;
      }
    }
    if err == Ok && len < length {
      pcb.shortened := pcb.shortened + 1;
    }
  }

  datatype TagState = TagNone | TagLeadIn | TagFound | TagLeadOut | TagSending

  /** What the file system returned for the requested name. */
  datatype FsFile = NoFile | FsFile(data: string)

  datatype Status = Open | Eof | TimedOut

  type Headers = h: seq<string> |
    |h| == NUM_FILE_HDR_STRINGS && forall i :: 0 <= i < |h| ==> |h[i]| <= 0xFFFF
    witness ["", "", ""]

  /** The bytes of a whole response: the headers, if the server sends them, and
      the file, with its tags expanded if it is scanned for them. */
  function Response(hdrs: seq<string>, withHdrs: bool, file: FsFile, tagCheck: bool, table: TagTable): string {
    (if withHdrs then Concat(hdrs) else "")
    + (match file
       case NoFile => ""
       case FsFile(data) => if tagCheck then Emitted(table, Text, data) else data)
  }

  /** The bytes of the headers from number `i` on. */
  function LengthFrom(hdrs: seq<string>, i: nat): nat
    requires i <= |hdrs|
    decreases |hdrs| - i
  {
    if i == |hdrs| then 0 else |hdrs[i]| + LengthFrom(hdrs, i + 1)
  }

  lemma {:induction false} LengthIs(hdrs: seq<string>, i: nat)
    requires i <= |hdrs|
    ensures LengthFrom(hdrs, i) == |Concat(hdrs[i..])|
    decreases |hdrs| - i
  {
    if i < |hdrs| {
      LengthIs(hdrs, i + 1);
      assert hdrs[i..][1..] == hdrs[i + 1..];
    }
  }

  type Tags = t: TagTable | t.Fits() witness TagTable([], (i: nat) => "")

  // ----- the bytes still owed -----

  function Concat(hdrs: seq<string>): string {
    if hdrs == [] then "" else hdrs[0] + Concat(hdrs[1..])
  }

  /** The headers from number `i` on, and then `rest`. */
  function HeadersFrom(hdrs: seq<string>, i: nat, rest: Bytes): Bytes
    requires i <= |hdrs|
    decreases |hdrs| - i
  {
    if i == |hdrs| then rest else Feed(hdrs[i], 0, |hdrs[i]|, HeadersFrom(hdrs, i + 1, rest))
  }

  /** What the file puts out from position `p` on, with the scanner in state `s`. */
  function EmittedFrom(table: TagTable, body: string, p: nat, s: State): Bytes
    requires p <= |body|
    decreases |body| - p
  {
    if p == |body| then End
    else
      var c := body[p];
      var rest := EmittedFrom(table, body, p + 1, s.Next(c));
      Byte(c, if p + 1 < |body| && s.Completes(c)
              then var text := Insert(table, s.name); Feed(text, 0, |text|, rest) else rest)
  }

  lemma {:induction false} HeadersFromIsConcat(hdrs: seq<string>, i: nat, rest: Bytes)
    requires i <= |hdrs|
    ensures Str(HeadersFrom(hdrs, i, rest)) == Concat(hdrs[i..]) + Str(rest)
    decreases |hdrs| - i
  {
    if i < |hdrs| {
      HeadersFromIsConcat(hdrs, i + 1, rest);
      JoinIsConcat(hdrs[i], HeadersFrom(hdrs, i + 1, rest));
      assert hdrs[i..][1..] == hdrs[i + 1..];
    }
  }

  lemma {:induction false} EmittedFromIsEmitted(table: TagTable, body: string, p: nat, s: State)
    requires p <= |body|
    ensures Str(EmittedFrom(table, body, p, s)) == Emitted(table, s, body[p..])
    decreases |body| - p
  {
    if p < |body| {
      var c := body[p];
      EmittedFromIsEmitted(table, body, p + 1, s.Next(c));
      assert body[p..][1..] == body[p + 1..];
      if s.Completes(c) {
        JoinIsConcat(Insert(table, s.name), EmittedFrom(table, body, p + 1, s.Next(c)));
      }
    }
  }

  /** Scanning a byte that completes no tag changes nothing about what is owed. */
  lemma {:induction false} ScanQuiet(table: TagTable, body: string, file: nat, p: nat, s: State)
    requires file <= p < |body| && !s.Completes(body[p])
    ensures Feed(body, file, p, EmittedFrom(table, body, p, s))
         == Feed(body, file, p + 1, EmittedFrom(table, body, p + 1, s.Next(body[p])))
    decreases p - file
  {
    if file < p {
      ScanQuiet(table, body, file + 1, p, s);
    } else {
      assert Feed(body, p + 1, p + 1, EmittedFrom(table, body, p + 1, s.Next(body[p])))
          == EmittedFrom(table, body, p + 1, s.Next(body[p]));
    }
  }

  /** Scanning the last byte of a tag puts its insert between the tag and the
      rest of the file, unless the file ends there. */
  lemma {:induction false} ScanTag(table: TagTable, body: string, file: nat, p: nat, s: State)
    requires file <= p < |body| && s.Completes(body[p])
    ensures var text := Insert(table, s.name);
            var rest := EmittedFrom(table, body, p + 1, Text);
            && Feed(body, file, p, EmittedFrom(table, body, p, s))
            == Feed(body, file, p + 1, if p + 1 < |body| then Feed(text, 0, |text|, rest) else rest)
    decreases p - file
  {
    if file < p {
      ScanTag(table, body, file + 1, p, s);
    }
  }

  /** What is owed at the start is the whole response. */
  lemma WholeResponse(hdrs: Headers, withHdrs: bool, data: string, ssi: bool, table: TagTable)
    ensures var body := if ssi then EmittedFrom(table, data, 0, Text) else Feed(data, 0, |data|, End);
            Str(if withHdrs then HeadersFrom(hdrs, 0, body) else body)
            == (if withHdrs then Concat(hdrs) else "") + if ssi then Emitted(table, Text, data) else data
  {
    var body := if ssi then EmittedFrom(table, data, 0, Text) else Feed(data, 0, |data|, End);
    EmittedFromIsEmitted(table, data, 0, Text);
    JoinIsConcat(data, End);
    assert data[0..] == data;
    HeadersFromIsConcat(hdrs, 0, body);
    assert hdrs[0..] == hdrs;
  }

  lemma {:induction false} CStringLength(s: string)
    ensures |CString(s)| <= |s|
  {
    if s == "" {
    } else {
      CStringLength(s[1..]);
    }
  }

  /** The state of one connection that is answering a request. Pointers into the
      file are offsets. */
  class HttpState {
    const pcb: TcpPcb
    const hdrs: Headers      // header strings, sent if `withHdrs`
    const withHdrs: bool
    const hasFile: bool          // handle and file pointer are not NULL
    const body: string           // the file's data
    const isSsi: bool
    const table: Tags
    ghost const whole: Bytes     // what the connection carries once this response is out

    var hdrIndex: nat
    var hdrPos: nat
    var file: nat                // first unsent byte
    var left: nat                // unsent bytes
    var parsed: nat              // first unparsed byte
    var parseLeft: nat           // unparsed bytes
    var tagEnd: nat
    var tagIndex: nat
    var tagName: string
    var tagInsert: string
    var tagState: TagState
    var retries: nat
    var status: Status

    /** The automaton state the fields stand for. */
    function Scanning(): (s: Scan)
      reads this
    {
      match tagState
      case TagNone | TagSending => Text
      case TagLeadIn => if tagIndex == LEN_TAG_LEAD_IN then Name("") else LeadIn(tagIndex)
      case TagFound => if tagIndex <= |tagName| then Name(tagName[..tagIndex]) else Text
      case TagLeadOut => LeadOut(tagName, tagIndex)
    }

    /** The tag fields stand for a state of the automaton. */
    predicate InTag()
      reads this
    {
      Scanning().Valid() && (tagState == TagFound ==> tagIndex <= |tagName|)
    }

    ghost predicate Consistent()
      reads this
    {
      && hdrIndex <= NUM_FILE_HDR_STRINGS
      && (hdrIndex < NUM_FILE_HDR_STRINGS ==> hdrPos <= |hdrs[hdrIndex]|)
      && file + left == |body|
      && (!hasFile ==> body == "" && !isSsi)
      && (isSsi ==>
            && parsed + parseLeft == |body|
            && file <= parsed
            && InTag()
            && (tagState == TagSending ==>
                  && tagEnd == parsed
                  && tagIndex <= |tagInsert| <= MAX_TAG_INSERT_LEN
                  && (file < tagEnd ==> tagIndex == 0)))
    }

    /** What will follow the bytes that are scanned but unsent. */
    function Coming(): Bytes
      requires Consistent()
      reads this
    {
      if !isSsi then End
      else if tagState == TagSending && parseLeft > 0 then
        Feed(tagInsert, tagIndex, |tagInsert|, EmittedFrom(table, body, parsed, Text))
      else EmittedFrom(table, body, parsed, Scanning())
    }

    function BodyPending(): Bytes
      requires Consistent()
      reads this
    {
      Feed(body, file, if isSsi then parsed else |body|, Coming())
    }

    function Pending(): Bytes
      requires Consistent()
      reads this
    {
      if hdrIndex == NUM_FILE_HDR_STRINGS then BodyPending()
      else Feed(hdrs[hdrIndex], hdrPos, |hdrs[hdrIndex]|, HeadersFrom(hdrs, hdrIndex + 1, BodyPending()))
    }

    /** Conservation: accepted bytes and bytes still owed make up the response,
        and what is owed is what the position in headers, file and tag says. */
    ghost predicate Valid()
      reads this, pcb
    {
      && Consistent()
      && Join(pcb.stream, Pending()) == whole
      && (status == Eof ==> Pending() == End)
    }

    /** The response phase starts: `tagCheck` asks for tag scanning, and headers
        go out unless the file already holds them. */
    constructor (pcb: TcpPcb, hdrs: Headers, withHdrs: bool, file: FsFile, tagCheck: bool, table: Tags)
      ensures Valid() && status == Open && this.pcb == pcb && this.hdrs == hdrs && hasFile == file.FsFile?
      ensures hdrPos == 0 && hdrIndex == if withHdrs then 0 else NUM_FILE_HDR_STRINGS
      ensures Str(whole) == pcb.stream + Response(hdrs, withHdrs, file, tagCheck, table)
    {
      var data := if file.NoFile? then "" else file.data;
      this.pcb := pcb;
      this.hdrs := hdrs;
      this.withHdrs := withHdrs;
      this.hasFile := file.FsFile?;
      this.body := data;
      this.isSsi := tagCheck && file.FsFile?;
      this.table := table;
      this.hdrIndex := if withHdrs then 0 else NUM_FILE_HDR_STRINGS;
      this.hdrPos := 0;
      this.file := 0;
      this.left := |data|;
      this.parsed := 0;
      this.parseLeft := |data|;
      this.tagEnd := 0;
      this.tagIndex := 0;
      this.tagName := "";
      this.tagInsert := "";
      this.tagState := TagNone;
      this.retries := 0;
      this.status := Open;
      var body := if tagCheck && file.FsFile? then EmittedFrom(table, data, 0, Text) else Feed(data, 0, |data|, End);
      this.whole := Join(pcb.stream, if withHdrs then HeadersFrom(hdrs, 0, body) else body);
      new;
      WholeResponse(hdrs, withHdrs, data, isSsi, table);
      JoinIsConcat(pcb.stream, Pending());
    }

    /** Offers `length` file bytes and moves the file pointer over what was taken. */
    method SendFile(length: nat) returns (err: Err, len: nat)
      requires Valid() && status == Open && hdrIndex == NUM_FILE_HDR_STRINGS
      requires length <= 0xFFFF && length <= if isSsi then parsed - file else left
      modifies this`file, this`left, pcb
      ensures Valid() && old(pcb.stream) <= pcb.stream
      ensures len <= length && (err == Ok && length > 0 ==> len > 0)
      ensures file == if err == Ok then old(file) + len else old(file)
      ensures err != Ok ==> pcb.stream == old(pcb.stream)
      ensures |pcb.stream| == |old(pcb.stream)| + file - old(file)
      ensures pcb.stalls >= old(pcb.stalls) + if err == Ok then 0 else 1
      ensures pcb.bodyWrites == old(pcb.bodyWrites) + if err == Ok then 1 else 0
    {
      err, len := HttpWrite(pcb, body, file, length);
      if err == Ok {
        pcb.bodyWrites := pcb.bodyWrites + 1;
        Pay(old(pcb.stream), body, file, len, if isSsi then parsed else |body|, Coming());
        MoveFile(len);
      }
    }

    /** `len` file bytes were accepted. */
    method MoveFile(len: nat)
      requires Consistent() && status == Open && hdrIndex == NUM_FILE_HDR_STRINGS
      requires file + len <= if isSsi then parsed else |body|
      requires Join(pcb.stream, Feed(body, file + len, if isSsi then parsed else |body|, Coming())) == whole
      modifies this`file, this`left
      ensures Valid() && file == old(file) + len
    {
      ghost var coming := Coming();
      file := file + len;
      left := left - len;
      assert Coming() == coming;
    }

    /** No header is empty, and all of them fit into a send buffer. */
    predicate HeadersFit() {
      (forall i :: 0 <= i < NUM_FILE_HDR_STRINGS ==> hdrs[i] != "") && LengthFrom(hdrs, 0) <= 0xFFFF
    }

    /** Sends header strings; the body must wait while any header byte is left, and
        also if none of the writes was shortened. */
    method SendHeaders() returns (dataToSend: nat)
      requires Valid() && status == Open && hdrIndex < NUM_FILE_HDR_STRINGS
      modifies this`hdrIndex, this`hdrPos, pcb
      ensures Valid() && old(pcb.stream) <= pcb.stream
      ensures dataToSend == HTTP_DATA_TO_SEND_BREAK <==> hdrIndex < NUM_FILE_HDR_STRINGS || !hasFile
      ensures dataToSend == HTTP_DATA_TO_SEND_CONTINUE
         <==> hdrIndex == NUM_FILE_HDR_STRINGS && hasFile && pcb.shortened > old(pcb.shortened)
      ensures dataToSend <= HTTP_DATA_TO_SEND_BREAK && pcb.bodyWrites == old(pcb.bodyWrites)
      ensures pcb.ample && HeadersFit() && old(hdrIndex == 0 && hdrPos == 0) ==>
                && hdrIndex == NUM_FILE_HDR_STRINGS && pcb.shortened == old(pcb.shortened)
                && |pcb.stream| == |old(pcb.stream)| + LengthFrom(hdrs, 0)
      ensures pcb.stalls >= old(pcb.stalls) && hdrIndex >= old(hdrIndex)
      ensures pcb.stalls == old(pcb.stalls) ==> hdrIndex > old(hdrIndex) || |pcb.stream| > |old(pcb.stream)|
    {
      dataToSend := HTTP_NO_DATA_TO_SEND;
      var len := pcb.Sndbuf();
      var sendlen := len;
      ghost var first := true;
      while len > 0 && hdrIndex < NUM_FILE_HDR_STRINGS && sendlen > 0
        invariant len <= 0xFFFF
        invariant Valid() && old(pcb.stream) <= pcb.stream
        invariant pcb.stalls >= old(pcb.stalls) && hdrIndex >= old(hdrIndex)
        invariant first ==> hdrIndex == old(hdrIndex) && sendlen == len && (pcb.stalls == old(pcb.stalls) ==> len > 0)
        invariant !first && pcb.stalls == old(pcb.stalls) ==>
                    hdrIndex > old(hdrIndex) || |pcb.stream| > |old(pcb.stream)|
        invariant dataToSend == if pcb.shortened > old(pcb.shortened) then HTTP_DATA_TO_SEND_CONTINUE
                                else HTTP_NO_DATA_TO_SEND
        invariant pcb.shortened >= old(pcb.shortened) && pcb.bodyWrites == old(pcb.bodyWrites)
        invariant pcb.ample && HeadersFit() && old(hdrIndex == 0 && hdrPos == 0) ==>
                    && hdrPos == 0 && len >= LengthFrom(hdrs, hdrIndex) && sendlen > 0
                    && pcb.shortened == old(pcb.shortened)
                    && |pcb.stream| == |old(pcb.stream)| + LengthFrom(hdrs, 0) - LengthFrom(hdrs, hdrIndex)
        decreases NUM_FILE_HDR_STRINGS - hdrIndex, len, sendlen
      {
        first := false;
        var part;
        sendlen, part := SendHeader(len);
        if part {
          dataToSend := HTTP_DATA_TO_SEND_CONTINUE;
        }
        len := len - sendlen;
      }
      if hdrIndex < NUM_FILE_HDR_STRINGS || !hasFile {
        return HTTP_DATA_TO_SEND_BREAK;
      }
    }

    /** Offers what is left of the current header, and moves on to the next one
        when it is all out; `part` says that only a part was accepted. */
    method SendHeader(len: nat) returns (sendlen: nat, part: bool)
      requires Valid() && status == Open && hdrIndex < NUM_FILE_HDR_STRINGS && 0 < len <= 0xFFFF
      modifies this`hdrIndex, this`hdrPos, pcb
      ensures Valid() && old(pcb.stream) <= pcb.stream && sendlen <= len && pcb.bodyWrites == old(pcb.bodyWrites)
      ensures |pcb.stream| == |old(pcb.stream)| + sendlen
      ensures hdrIndex == old(hdrIndex) || (hdrIndex == old(hdrIndex) + 1 && hdrPos == 0)
      ensures pcb.stalls > old(pcb.stalls) ||
              (pcb.stalls == old(pcb.stalls) && (hdrIndex > old(hdrIndex) || sendlen > 0))
      ensures pcb.shortened == old(pcb.shortened) + if part then 1 else 0
      ensures pcb.ample && len >= |hdrs[old(hdrIndex)]| - old(hdrPos) ==>
                && hdrIndex == old(hdrIndex) + 1 && sendlen == |hdrs[old(hdrIndex)]| - old(hdrPos) && !part
    {
      var hdrlen := |hdrs[hdrIndex]|;
      sendlen := if len < hdrlen - hdrPos then len else hdrlen - hdrPos;
      var oldSendlen := sendlen;
      var err;
      err, sendlen := SendHeaderBytes(sendlen);
      part := err == Ok && oldSendlen != sendlen;
      if hdrPos == hdrlen {
        NextHeader();
      }
    }

    /** Offers header bytes and advances the header position; a refusal counts as
        zero bytes sent. */
    method SendHeaderBytes(length: nat) returns (err: Err, sendlen: nat)
      requires Valid() && status == Open && hdrIndex < NUM_FILE_HDR_STRINGS
      requires length <= |hdrs[hdrIndex]| - hdrPos
      modifies this`hdrPos, pcb
      ensures Valid() && old(pcb.stream) <= pcb.stream
      ensures sendlen <= length && hdrPos == old(hdrPos) + sendlen
      ensures err == Ok && length > 0 ==> sendlen > 0
      ensures pcb.ample ==> sendlen == length
      ensures pcb.shortened == old(pcb.shortened) + if err == Ok && sendlen < length then 1 else 0
      ensures |pcb.stream| == |old(pcb.stream)| + sendlen && pcb.bodyWrites == old(pcb.bodyWrites)
      ensures pcb.stalls >= old(pcb.stalls) + if err == Ok then 0 else 1
    {
      var hdr := hdrs[hdrIndex];
      ghost var rest := HeadersFrom(hdrs, hdrIndex + 1, BodyPending());
      err, sendlen := HttpWrite(pcb, hdr, hdrPos, length);
      if err == Ok {
        Pay(old(pcb.stream), hdr, hdrPos, sendlen, |hdr|, rest);
        MoveHeader(sendlen);
      } else {
        sendlen := 0;
      }
    }

    /** `len` bytes of the current header were accepted. */
    method MoveHeader(len: nat)
      requires Consistent() && status == Open && hdrIndex < NUM_FILE_HDR_STRINGS
      requires hdrPos + len <= |hdrs[hdrIndex]|
      requires Join(pcb.stream, Feed(hdrs[hdrIndex], hdrPos + len, |hdrs[hdrIndex]|,
                                     HeadersFrom(hdrs, hdrIndex + 1, BodyPending()))) == whole
      modifies this`hdrPos
      ensures Valid() && hdrPos == old(hdrPos) + len
    {
      ghost var body := BodyPending();
      hdrPos := hdrPos + len;
      assert BodyPending() == body;
    }

    method NextHeader()
      requires Valid() && hdrIndex < NUM_FILE_HDR_STRINGS && hdrPos == |hdrs[hdrIndex]|
      modifies this`hdrIndex, this`hdrPos
      ensures Valid() && hdrIndex == old(hdrIndex) + 1 && hdrPos == 0
    {
      hdrIndex := hdrIndex + 1;
      hdrPos := 0;
    }

    method SendDataNonSsi() returns (dataToSend: nat)
      requires Valid() && status == Open && hdrIndex == NUM_FILE_HDR_STRINGS && !isSsi
      modifies this`file, this`left, pcb
      ensures Valid() && old(pcb.stream) <= pcb.stream
      ensures dataToSend == 0 ==> pcb.stream == old(pcb.stream)
      ensures pcb.stalls >= old(pcb.stalls)
      ensures pcb.stalls == old(pcb.stalls) && old(left) > 0 ==> |pcb.stream| > |old(pcb.stream)|
      ensures pcb.bodyWrites >= old(pcb.bodyWrites) && (dataToSend == 0 <==> pcb.bodyWrites == old(pcb.bodyWrites))
    {
      var sndbuf := pcb.Sndbuf();
      var len := if sndbuf < left then sndbuf else left;
      var mss := pcb.Mss();
      if len > 2 * mss {
        len := 2 * mss;
      }
      var err;
      err, len := SendFile(len);
      dataToSend := if err == Ok then 1 else 0;
    }

    // ----- server-side includes -----

    predicate Scannable()
      requires Consistent()
      reads this
    {
      isSsi && hdrIndex == NUM_FILE_HDR_STRINGS && status == Open && parseLeft > 0
    }

    method ParseText(c: char)
      requires tagState == TagNone
      modifies this`tagState, this`tagIndex
      ensures InTag() && Scanning() == old(Scanning()).Next(c) && tagState != TagSending
    {
      if c == LeadInChar(0) {
        tagState := TagLeadIn;
        tagIndex := 1;
      }
    }

    /** The lead-in is complete once all its characters were read; the byte at
        hand then belongs to the name and is not consumed here. */
    method ParseLeadIn(c: char) returns (consumed: bool)
      requires InTag() && tagState == TagLeadIn
      modifies this`tagState, this`tagIndex
      ensures InTag() && tagState != TagSending
      ensures consumed ==> Scanning() == old(Scanning()).Next(c)
      ensures !consumed ==> Scanning() == old(Scanning()) && tagState == TagFound
    {
      if tagIndex == LEN_TAG_LEAD_IN {
        tagIndex := 0;
        tagState := TagFound;
        return false;
      }
      if c == LeadInChar(tagIndex) {
        tagIndex := tagIndex + 1;
      } else {
        tagState := TagNone;
      }
      return true;
    }

    method ParseName(c: char)
      requires InTag() && tagState == TagFound
      modifies this`tagState, this`tagIndex, this`tagName
      ensures InTag() && Scanning() == old(Scanning()).Next(c) && tagState != TagSending
    {
      if tagIndex == 0 && IsSpace(c) {
        return;
      }
      if c == LeadOutChar(0) || IsSpace(c) {
        if tagIndex == 0 {
          tagState := TagNone;
        } else {
          tagState := TagLeadOut;
          tagName := tagName[..tagIndex];
          tagIndex := if c == LeadOutChar(0) then 1 else 0;
        }
      } else if tagIndex < MAX_TAG_NAME_LEN {
        tagName := tagName[..tagIndex] + [c];
        tagIndex := tagIndex + 1;
        assert tagName[..tagIndex] == tagName;
      } else {
        tagState := TagNone;
      }
    }

    method ParseLeadOut(c: char)
      requires InTag() && tagState == TagLeadOut && !Scanning().Completes(c)
      modifies this`tagState, this`tagIndex
      ensures InTag() && Scanning() == old(Scanning()).Next(c) && tagState != TagSending
    {
      if tagIndex == 0 && IsSpace(c) {
      } else if c == LeadOutChar(tagIndex) {
        tagIndex := tagIndex + 1;
      } else {
        tagState := TagNone;
      }
    }

    /** Looks up the text of the tag just read. */
    method GetTagInsert()
      modifies this`tagInsert
      ensures tagInsert == Insert(table, tagName) && IsInsert(table, tagName, tagInsert)
      ensures |tagName| <= MAX_TAG_NAME_LEN ==> |tagInsert| <= MAX_TAG_INSERT_LEN
    {
      var loop := 0;
      while loop < |table.names|
        invariant loop <= |table.names|
        invariant forall j: nat :: j < loop ==> !table.Matches(tagName, j)
      {
        if table.Matches(tagName, loop) {
          tagInsert := table.handler(loop);
          InsertIsFirst(table, tagName, loop);
          InsertIff(table, tagName, tagInsert);
          return;
        }
        loop := loop + 1;
      }
      tagInsert := UnknownTag(tagName);
      InsertIsFirst(table, tagName, loop);
      InsertIff(table, tagName, tagInsert);
      CStringLength(tagName);
    }

    /** The byte at `parsed` completes a tag: fetch its insert and get ready to
        send up to the insert point. */
    method CompleteTag()
      requires Valid() && Scannable() && Scanning().Completes(body[parsed])
      modifies this`tagState, this`tagIndex, this`tagInsert, this`tagEnd, this`parsed, this`parseLeft
      ensures Valid() && parseLeft == old(parseLeft) - 1 && tagState == TagSending && file < tagEnd
    {
      ScanTag(table, body, file, parsed, Scanning());
      GetTagInsert();
      StartSending();
    }

    /** The insert for the tag that ends with the byte at `parsed` was fetched. */
    method StartSending()
      requires Consistent() && Scannable() && tagState == TagLeadOut && |tagInsert| <= MAX_TAG_INSERT_LEN
      requires var rest := EmittedFrom(table, body, parsed + 1, Text);
               Join(pcb.stream, Feed(body, file, parsed + 1,
                                     if parseLeft > 1 then Feed(tagInsert, 0, |tagInsert|, rest) else rest)) == whole
      modifies this`tagState, this`tagIndex, this`tagEnd, this`parsed, this`parseLeft
      ensures Valid() && parseLeft == old(parseLeft) - 1 && tagState == TagSending && file < tagEnd
    {
      parseLeft := parseLeft - 1;
      parsed := parsed + 1;
      tagIndex := 0;
      tagState := TagSending;
      tagEnd := parsed;
      assert Scanning() == Text;
    }

    /** The scanner moved from `s` over the byte at `parsed`. */
    method Consume(ghost s: State)
      requires Consistent() && Scannable() && tagState != TagSending && status == Open
      requires !s.Completes(body[parsed]) && Scanning() == s.Next(body[parsed])
      requires Join(pcb.stream, Feed(body, file, parsed, EmittedFrom(table, body, parsed, s))) == whole
      modifies this`parsed, this`parseLeft
      ensures Valid() && parseLeft == old(parseLeft) - 1
    {
      ghost var next := Scanning();
      ScanQuiet(table, body, file, parsed, s);
      parseLeft := parseLeft - 1;
      parsed := parsed + 1;
      assert Scanning() == next && Coming() == EmittedFrom(table, body, parsed, next);
    }

    /** The byte at `parsed` completes a tag; the file up to it can be sent now. */
    method EndTag(len0: nat) returns (err: Err, len: nat, sent: bool)
      requires Valid() && Scannable() && 0 < len0 <= 0xFFFF && Scanning().Completes(body[parsed])
      modifies this`tagState, this`tagIndex, this`tagInsert, this`tagEnd
      modifies this`parsed, this`parseLeft, this`file, this`left, pcb
      ensures Valid() && old(pcb.stream) <= pcb.stream && parseLeft == old(parseLeft) - 1 && 0 <= len <= 0xFFFF
      ensures if err == Ok then sent && len > 0 && |pcb.stream| > |old(pcb.stream)|
              else !sent && pcb.stream == old(pcb.stream) && file == old(file)
      ensures pcb.bodyWrites == old(pcb.bodyWrites) + if sent then 1 else 0
      ensures pcb.stalls >= old(pcb.stalls) + if err == Ok then 0 else 1
    {
      CompleteTag();
      len := len0;
      if len > tagEnd - file {
        len := tagEnd - file;
      }
      err, len := SendFile(len);
      sent := err == Ok;
    }

    /** One turn of the scanning loop: read a byte, or send around a tag. */
    method Turn(len0: nat) returns (err: Err, len: nat, sent: bool)
      requires Valid() && Scannable() && 0 < len0 <= 0xFFFF
      modifies this`tagState, this`tagIndex, this`tagName, this`tagInsert, this`tagEnd
      modifies this`parsed, this`parseLeft, this`file, this`left, pcb
      ensures Valid() && old(pcb.stream) <= pcb.stream && len <= 0xFFFF
      ensures !sent ==> pcb.stream == old(pcb.stream) && file == old(file)
      ensures sent ==> |pcb.stream| > |old(pcb.stream)|
      ensures pcb.bodyWrites == old(pcb.bodyWrites) + if sent then 1 else 0
      ensures pcb.stalls >= old(pcb.stalls) + if err == Ok then 0 else 1
      ensures err == Ok ==> len > 0 && (!sent && tagState == TagSending ==> parseLeft == old(parseLeft))
      ensures || parseLeft < old(parseLeft)
              || (parseLeft == old(parseLeft) && Rank() < old(Rank()))
              || (parseLeft == old(parseLeft) && Rank() == old(Rank()) && Unsent() < old(Unsent()))
              || (parseLeft == old(parseLeft) && Rank() == old(Rank()) && Unsent() == old(Unsent()) && err != Ok)
    {
      err, len, sent := Ok, len0, false;
      var c := body[parsed];
      ghost var s := Scanning();
      match tagState {
        case TagNone =>
          ParseText(c);
          Consume(s);
        case TagLeadIn =>
          var consumed := ParseLeadIn(c);
          if consumed {
            Consume(s);
          }
        case TagFound =>
          ParseName(c);
          Consume(s);
        case TagLeadOut =>
          if tagIndex == LEN_TAG_LEAD_OUT - 1 && c == LeadOutChar(tagIndex) {
            err, len, sent := EndTag(len);
          } else {
            ParseLeadOut(c);
            Consume(s);
          }
        case TagSending =>
          err, len, sent := SendTag(len);
      }
    }

    method SendInsert(length: nat) returns (err: Err, len: nat)
      requires Valid() && Scannable() && tagState == TagSending && tagEnd == file
      requires length <= 0xFFFF && length <= |tagInsert| - tagIndex
      modifies this`tagIndex, pcb
      ensures Valid() && old(pcb.stream) <= pcb.stream
      ensures len <= length && (err == Ok && length > 0 ==> len > 0)
      ensures tagIndex == if err == Ok then old(tagIndex) + len else old(tagIndex)
      ensures err != Ok ==> pcb.stream == old(pcb.stream)
      ensures |pcb.stream| == |old(pcb.stream)| + tagIndex - old(tagIndex)
      ensures pcb.stalls >= old(pcb.stalls) + if err == Ok then 0 else 1
      ensures pcb.bodyWrites == old(pcb.bodyWrites) + if err == Ok then 1 else 0
    {
      err, len := HttpWrite(pcb, tagInsert, tagIndex, length);
      if err == Ok {
        pcb.bodyWrites := pcb.bodyWrites + 1;
        Pay(old(pcb.stream), tagInsert, tagIndex, len, |tagInsert|, EmittedFrom(table, body, parsed, Text));
        MoveInsert(len);
      }
    }

    /** `len` bytes of the insert were accepted. */
    method MoveInsert(len: nat)
      requires Consistent() && Scannable() && tagState == TagSending && tagEnd == file
      requires tagIndex + len <= |tagInsert|
      requires Join(pcb.stream, Feed(tagInsert, tagIndex + len, |tagInsert|,
                                     EmittedFrom(table, body, parsed, Text))) == whole
      modifies this`tagIndex
      ensures Valid() && tagIndex == old(tagIndex) + len
    {
      tagIndex := tagIndex + len;
    }

    /** Sends what is left of the file before the insert point, then the insert,
        then goes back to scanning. */
    method SendTag(len0: nat) returns (err: Err, len: nat, sent: bool)
      requires Valid() && Scannable() && tagState == TagSending && 0 < len0 <= 0xFFFF
      modifies this`tagState, this`tagIndex, this`file, this`left, pcb
      ensures Valid() && old(pcb.stream) <= pcb.stream && len <= 0xFFFF
      ensures !sent ==> pcb.stream == old(pcb.stream) && file == old(file)
      ensures sent ==> |pcb.stream| > |old(pcb.stream)|
      ensures pcb.bodyWrites == old(pcb.bodyWrites) + if sent then 1 else 0
      ensures pcb.stalls >= old(pcb.stalls) + if err == Ok then 0 else 1
      ensures err == Ok ==> len > 0
      ensures err != Ok ==> tagState == TagSending && tagIndex == old(tagIndex) && file == old(file)
      ensures err == Ok && tagState == TagSending ==>
                file >= old(file) && tagIndex >= old(tagIndex) && file + tagIndex > old(file + tagIndex)
      ensures tagState == TagSending || tagState == TagNone
    {
      err, len, sent := Ok, len0, false;
      if tagEnd > file {
        if len > tagEnd - file {
          len := tagEnd - file;
        }
        err, len := SendFile(len);
        sent := err == Ok;
      } else if tagIndex < |tagInsert| {
        if len > |tagInsert| - tagIndex {
          len := |tagInsert| - tagIndex;
        }
        err, len := SendInsert(len);
        sent := err == Ok;
      } else {
        tagIndex := 0;
        tagState := TagNone;
      }
    }

    ghost function Rank(): nat
      reads this
    {
      match tagState case TagSending => 2 case TagLeadIn => 1 case _ => 0
    }

    ghost function Unsent(): int
      reads this
    {
      if tagState == TagSending then tagEnd + |tagInsert| - file - tagIndex else 0
    }

    /** Offers the bytes that were parsed but not sent, as far as the send buffer
        and two segments allow. */
    method SendParsed() returns (err: Err, len: nat)
      requires Valid() && status == Open && hdrIndex == NUM_FILE_HDR_STRINGS && isSsi
      modifies this`file, this`left, pcb
      ensures Valid() && old(pcb.stream) <= pcb.stream && len <= 0xFFFF
      ensures err != Ok ==> pcb.stream == old(pcb.stream)
      ensures |pcb.stream| == |old(pcb.stream)| + file - old(file)
      ensures pcb.stalls >= old(pcb.stalls) + if err == Ok then 0 else 1
      ensures pcb.bodyWrites == old(pcb.bodyWrites) + if err == Ok then 1 else 0
      ensures pcb.stalls == old(pcb.stalls) && old(parsed > file) ==> len > 0 && file > old(file)
    {
      var sndbuf := pcb.Sndbuf();
      len := if sndbuf < parsed - file then sndbuf else parsed - file;
      var mss := pcb.Mss();
      if len > 2 * mss {
        len := 2 * mss;
      }
      err, len := SendFile(len);
    }

    /** The scanning loop: reads on, and sends around tags, until all is parsed, a
        write is refused or there is no room left (`full`). */
    method ScanAndSend(len0: nat) returns (err: Err, len: nat, sent: bool, full: bool)
      requires Valid() && status == Open && hdrIndex == NUM_FILE_HDR_STRINGS && isSsi && len0 <= 0xFFFF
      modifies this`tagState, this`tagIndex, this`tagName, this`tagInsert, this`tagEnd
      modifies this`parsed, this`parseLeft, this`file, this`left, pcb
      ensures Valid() && old(pcb.stream) <= pcb.stream && len <= 0xFFFF
      ensures if sent then |pcb.stream| > |old(pcb.stream)| else pcb.stream == old(pcb.stream) && file == old(file)
      ensures pcb.bodyWrites >= old(pcb.bodyWrites) && (sent <==> pcb.bodyWrites > old(pcb.bodyWrites))
      ensures pcb.stalls >= old(pcb.stalls)
      ensures pcb.stalls == old(pcb.stalls) && len0 > 0 ==> err == Ok && len > 0 && !full && parseLeft == 0
      ensures pcb.stalls == old(pcb.stalls) && !sent && tagState == TagSending ==> parseLeft == old(parseLeft)
    {
      err, len, sent, full := Ok, len0, false, false;
      while parseLeft > 0 && err == Ok
        invariant Valid() && old(pcb.stream) <= pcb.stream && len <= 0xFFFF
        invariant if sent then |pcb.stream| > |old(pcb.stream)| else pcb.stream == old(pcb.stream) && file == old(file)
        invariant pcb.bodyWrites >= old(pcb.bodyWrites) && (sent <==> pcb.bodyWrites > old(pcb.bodyWrites))
        invariant pcb.stalls >= old(pcb.stalls)
        invariant pcb.stalls == old(pcb.stalls) ==> err == Ok && (len0 > 0 ==> len > 0)
        invariant pcb.stalls == old(pcb.stalls) && !sent && tagState == TagSending ==> parseLeft == old(parseLeft)
        decreases parseLeft, Rank(), Unsent(), err == Ok
      {
        if len == 0 {
          full := true;
          return;
        }
        var now;
        err, len, now := Turn(len);
        if now {
          sent := true;
        }
      }
    }

    /** Bytes that were parsed in an earlier attempt go out first. */
    method SendEarlier() returns (err: Err, len: nat, sent: bool, full: bool)
      requires Valid() && status == Open && hdrIndex == NUM_FILE_HDR_STRINGS && isSsi
      modifies this`file, this`left, pcb
      ensures Valid() && old(pcb.stream) <= pcb.stream && len <= 0xFFFF
      ensures sent <==> err == Ok && old(parsed > file)
      ensures pcb.bodyWrites == old(pcb.bodyWrites) + if sent then 1 else 0
      ensures !sent ==> pcb.stream == old(pcb.stream) && file == old(file)
      ensures pcb.stalls >= old(pcb.stalls)
      ensures pcb.stalls == old(pcb.stalls) ==>
                err == Ok && len > 0 && !full && (sent ==> |pcb.stream| > |old(pcb.stream)|)
    {
      err, sent, full := Ok, false, false;
      len := pcb.Sndbuf();
      if parsed > file {
        err, len := SendParsed();
        sent := err == Ok;
        var room := pcb.Sndbuf();
        full := room == 0;
      }
    }

    method SendDataSsi() returns (dataToSend: nat)
      requires Valid() && status == Open && hdrIndex == NUM_FILE_HDR_STRINGS && isSsi
      modifies this`tagState, this`tagIndex, this`tagName, this`tagInsert, this`tagEnd
      modifies this`parsed, this`parseLeft, this`file, this`left, pcb
      ensures Valid() && old(pcb.stream) <= pcb.stream
      ensures dataToSend == 0 ==> pcb.stream == old(pcb.stream)
      ensures pcb.stalls >= old(pcb.stalls)
      ensures pcb.stalls == old(pcb.stalls) && old(left) > 0 ==> |pcb.stream| > |old(pcb.stream)|
      ensures pcb.bodyWrites >= old(pcb.bodyWrites) && (dataToSend == 0 <==> pcb.bodyWrites == old(pcb.bodyWrites))
    {
      dataToSend := 0;
      var err, len, sent, full := SendEarlier();
      if sent {
        dataToSend := 1;
      }
      if full {
        return;
      }
      if err == Ok {
        err, len, sent, full := ScanAndSend(len);
        if sent {
          dataToSend := 1;
        }
        if full {
          return;
        }
      }
      if tagState != TagSending && parsed > file {
        err, len := SendParsed();
        if err == Ok {
          dataToSend := 1;
        }
      }
    }

    // ----- one attempt to send, and the callbacks that make attempts -----

    /** Nothing of the body is owed exactly when every file byte was sent. */
    lemma NothingOwedIff()
      requires Consistent()
      ensures BodyPending() == End <==> left == 0
    {
    }

    lemma Complete()
      requires Valid()
      ensures pcb.stream <= Str(whole)
      ensures Pending() == End <==> pcb.stream == Str(whole)
    {
      JoinIsConcat(pcb.stream, Pending());
      if pcb.stream == Str(whole) {
        assert |Str(Pending())| == 0;
      }
    }

    /** The part of an attempt that follows the headers. */
    method SendBody() returns (dataToSend: nat)
      requires Valid() && status == Open && hdrIndex == NUM_FILE_HDR_STRINGS
      modifies this, pcb
      ensures Valid() && old(pcb.stream) <= pcb.stream
      ensures retries == old(retries) && status != TimedOut
      ensures status == Eof <==> left == 0
      ensures dataToSend == 0 && status == Open ==> pcb.stream == old(pcb.stream)
      ensures pcb.bodyWrites >= old(pcb.bodyWrites)
      ensures dataToSend == 0 <==> status == Eof || pcb.bodyWrites == old(pcb.bodyWrites)
      ensures pcb.stalls >= old(pcb.stalls) && hdrIndex == old(hdrIndex)
      ensures pcb.stalls == old(pcb.stalls) && status == Open ==> |pcb.stream| > |old(pcb.stream)|
    {
      if left > 0 {
        if isSsi {
          dataToSend := SendDataSsi();
        } else {
          dataToSend := SendDataNonSsi();
        }
      }
      if left == 0 {
        NothingOwedIff();
        status := Eof;
        dataToSend := 0;
      }
    }

    /** An attempt reports nothing exactly if it ended the response, or if no write
        of the file was taken and no header is pending any more: header bytes alone
        go unreported when they complete the headers. */
    ghost predicate Silent(hdrIndex0: nat, bodyWrites0: nat)
      reads this, pcb
    {
      || status == Eof
      || (pcb.bodyWrites == bodyWrites0
          && (hdrIndex0 < NUM_FILE_HDR_STRINGS ==> hdrIndex == NUM_FILE_HDR_STRINGS && hasFile))
    }

    /** One attempt. The accepted stream only grows, is always a prefix of the
        response, and end of file is declared only when all of it was accepted. */
    method Send() returns (dataToSend: nat)
      requires Valid() && status == Open
      modifies this, pcb
      ensures Valid() && old(pcb.stream) <= pcb.stream
      ensures retries == old(retries) && status != TimedOut
      ensures old(hdrIndex) == NUM_FILE_HDR_STRINGS ==> (status == Eof <==> left == 0)
      ensures dataToSend == 0 <==> Silent(old(hdrIndex), old(pcb.bodyWrites))
      ensures old(hdrIndex) == NUM_FILE_HDR_STRINGS && dataToSend == 0 && status == Open ==>
                pcb.stream == old(pcb.stream)
      ensures pcb.ample && HeadersFit() && hasFile && old(hdrIndex == 0 && hdrPos == 0) ==>
                && dataToSend == 0 && status == Open
                && |pcb.stream| == |old(pcb.stream)| + LengthFrom(hdrs, 0)
      ensures pcb.stream <= Str(whole) && (status == Eof ==> pcb.stream == Str(whole))
      ensures pcb.stalls >= old(pcb.stalls) && hdrIndex >= old(hdrIndex)
      ensures pcb.stalls == old(pcb.stalls) && status == Open ==>
                hdrIndex > old(hdrIndex) || |pcb.stream| > |old(pcb.stream)|
    {
      dataToSend := HTTP_NO_DATA_TO_SEND;
      if hdrIndex < NUM_FILE_HDR_STRINGS {
        dataToSend := SendHeaders();
        if dataToSend != HTTP_DATA_TO_SEND_CONTINUE {
          Complete();
          return;
        }
      }
      dataToSend := SendBody();
      Complete();
    }

    /** The peer acknowledged data. Without a refusal this brings the response
        nearer to its end. */
    method Sent()
      requires Valid() && status == Open
      modifies this, pcb
      ensures Valid() && old(pcb.stream) <= pcb.stream && status != TimedOut && retries == 0
      ensures pcb.stalls >= old(pcb.stalls) && hdrIndex >= old(hdrIndex)
      ensures pcb.stalls == old(pcb.stalls) && status == Open ==>
                hdrIndex > old(hdrIndex) || |pcb.stream| > |old(pcb.stream)|
    {
      ClearRetries();
      var _ := Send();
    }

    /** After any number of acknowledgements either the whole response is out, or
        there were not more of them than bytes, headers and refusals. */
    method Acknowledge(n: nat)
      requires Valid() && status == Open
      modifies this, pcb
      ensures Valid() && old(pcb.stream) <= pcb.stream <= Str(whole)
      ensures || (status == Eof && pcb.stream == Str(whole))
              || n <= |Str(whole)| - |old(pcb.stream)| + NUM_FILE_HDR_STRINGS + pcb.stalls - old(pcb.stalls)
    {
      var i := 0;
      while i < n && status == Open
        invariant i <= n && Valid() && old(pcb.stream) <= pcb.stream && status != TimedOut
        invariant pcb.stalls >= old(pcb.stalls) && hdrIndex >= old(hdrIndex)
        invariant status == Open ==> i <= |pcb.stream| - |old(pcb.stream)| + hdrIndex - old(hdrIndex)
                                          + pcb.stalls - old(pcb.stalls)
      {
        Sent();
        i := i + 1;
      }
      Complete();
    }

    method CountRetry()
      requires Valid() && status == Open
      modifies this`retries
      ensures Valid() && retries == old(retries) + 1
    {
      retries := retries + 1;
    }

    method ClearRetries()
      requires Valid() && status == Open
      modifies this`retries
      ensures Valid() && retries == 0
    {
      retries := 0;
    }

    method GiveUp()
      requires Valid() && status == Open
      modifies this`status
      ensures Valid() && status == TimedOut
    {
      status := TimedOut;
    }

    /** Two seconds went by; give up after too many of these without an
        acknowledgement. */
    method Poll() returns (flush: bool)
      requires Valid() && status == Open
      modifies this, pcb
      ensures flush <==> status != TimedOut && hasFile && !Silent(old(hdrIndex), old(pcb.bodyWrites))
      ensures Valid() && old(pcb.stream) <= pcb.stream <= Str(whole)
      ensures retries == old(retries) + 1 && (status == TimedOut <==> retries == 4)
      ensures status == TimedOut ==> pcb.stream == old(pcb.stream)
      ensures status == Eof ==> pcb.stream == Str(whole)
    {
      flush := false;
      CountRetry();
      if retries == HTTPD_MAX_RETRIES {
        GiveUp();
      } else if hasFile {
        var dataToSend := Send();
        flush := dataToSend != 0;
      }
      Complete();
    }

    /** A whole connection: any sequence of callbacks (`true` for an
        acknowledgement), each meeting arbitrary back-pressure. */
    method Serve(callbacks: seq<bool>)
      requires Valid() && status == Open
      modifies this, pcb
      ensures Valid()
      ensures old(pcb.stream) <= pcb.stream <= Str(whole)
      ensures status == Eof ==> pcb.stream == Str(whole)
    {
      var i := 0;
      while i < |callbacks| && status == Open
        invariant i <= |callbacks|
        invariant Valid() && old(pcb.stream) <= pcb.stream
      {
        if callbacks[i] {
          Sent();
        } else {
          var _ := Poll();
        }
        i := i + 1;
      }
      Complete();
    }
  }

  /** On a connection that takes everything, the first attempt at any response
      with a file puts out all its headers, which are not empty, reports nothing
      and leaves the file for a later callback. */
  method HeadersGoUnreported(hdrs: Headers, data: string, tagCheck: bool, table: Tags)
    returns (dataToSend: nat, sent: string)
    requires (forall i :: 0 <= i < NUM_FILE_HDR_STRINGS ==> hdrs[i] != "") && |Concat(hdrs)| <= 0xFFFF
    ensures dataToSend == HTTP_NO_DATA_TO_SEND && sent == Concat(hdrs) != ""
  {
    var pcb := new TcpPcb(true);
    var hs := new HttpState(pcb, hdrs, true, FsFile(data), tagCheck, table);
    LengthIs(hdrs, 0);
    assert hdrs[0..] == hdrs;
    dataToSend := hs.Send();
    sent := pcb.stream;
    assert |sent| == |Concat(hdrs)|;
    assert sent == Str(hs.whole)[..|Concat(hdrs)|] == Concat(hdrs);
  }
}
