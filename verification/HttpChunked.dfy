/** The response reader of `HttpRequestObject`: bodies with a Content-Length field and chunked ones. */
module HttpChunked {
  import opened Bytes

  const LINE_END: Bytes := [CR, LF]

  const CONTENT_LENGTH_FIELD: Bytes :=
    [0x43, 0x6F, 0x6E, 0x74, 0x65, 0x6E, 0x74, 0x2D, 0x4C, 0x65, 0x6E, 0x67, 0x74, 0x68]

  /** CR LF 0 CR LF CR LF */
  const BODY_END: Bytes := LINE_END + [DIGIT0] + LINE_END + LINE_END

  // ---------------------------------------------------------------- searching

  /** `strnlen` */
  function StrnLen(d: Bytes, len: nat): (n: nat)
    requires len <= |d|
    ensures n <= len && (forall i :: 0 <= i < n ==> d[i] != NUL) && (n < len ==> d[n] == NUL)
    decreases len
  {
    if len == 0 then 0
    else
      var before := StrnLen(d, len - 1);
      if before < len - 1 || d[len - 1] == NUL then before else len
  }

  lemma PrefixSlice(d: Bytes, n: nat, i: nat, w: Bytes)
    requires n <= |d| && At(d[..n], i, w)
    ensures At(d, i, w)
  {
    assert d[..n][i..i + |w|] == d[i..i + |w|];
  }

  /** `strnstr` as the file defines it: the first occurrence in the text before the first NUL, unless
      that occurrence is the very end of the text. */
  function Find(d: Bytes, needle: Bytes, len: nat): (r: Option<nat>)
    requires len <= |d| && needle != []
    ensures r.Some? ==> r.value + |needle| < len && At(d, r.value, needle)
  {
    var text := d[..StrnLen(d, len)];
    match FindText(text, needle)
    case Some(i) =>
      PrefixSlice(d, |text|, i, needle);
      if i + |needle| < |text| then Some(i) else None
    case None => None
  }

  method Strnstr(d: Bytes, needle: Bytes, len: nat) returns (r: Option<nat>)
    requires len <= |d| && needle != []
    ensures r == Find(d, needle, len)
  {
    var limit := StrnLen(d, len);
    ghost var text := d[..limit];
    var i := 0;
    while i < limit - |needle|
      invariant 0 <= i <= limit && (i == 0 || i <= limit - |needle|)
      invariant forall j :: 0 <= j < i ==> !At(text, j, needle)
    {
      assert d[i..i + |needle|] == text[i..i + |needle|];
      if d[i] == needle[0] && d[i..i + |needle|] == needle {
        assert At(text, i, needle);
        return Some(i);
      }
      assert d[i..i + |needle|][0] == d[i];
      i := i + 1;
    }
    return None;
  }

  // ---------------------------------------------------------------- chunk sizes

  predicate IsSpace(c: byte) { c == SPACE || TAB <= c <= CR }

  function SkipSpaces(t: Bytes, i: nat): (r: nat)
    requires i <= |t|
    ensures i <= r <= |t|
    decreases |t| - i
  {
    if i < |t| && IsSpace(t[i]) then SkipSpaces(t, i + 1) else i
  }

  /** The number written by the hexadecimal digits from `i` on. */
  function HexRun(t: Bytes, i: nat, sum: nat): nat
    requires i <= |t|
    decreases |t| - i
  {
    if i < |t| && HexValueOf(t[i]).Some? then HexRun(t, i + 1, sum * 16 + HexValueOf(t[i]).value) else sum
  }

  /** `strtol` in base 16, for a 64-bit `long`. */
  function StrToLong(t: Bytes): int {
    var i := SkipSpaces(t, 0);
    var negative := i < |t| && t[i] == MINUS;
    var j := if i < |t| && (t[i] == MINUS || t[i] == PLUS) then i + 1 else i;
    var prefixed := j + 2 < |t| && t[j] == DIGIT0 && (t[j + 1] == 0x78 || t[j + 1] == 0x58) && HexValueOf(t[j + 2]).Some?;
    var magnitude: int := HexRun(t, if prefixed then j + 2 else j, 0);
    if negative then (if magnitude > 0x8000_0000_0000_0000 then -0x8000_0000_0000_0000 else -magnitude)
    else if magnitude >= 0x8000_0000_0000_0000 then 0x7FFF_FFFF_FFFF_FFFF
    else magnitude
  }

  function ChunkSize(t: Bytes): int { ToInt32(StrToLong(t)) }

  // ---------------------------------------------------------------- Content-Length

  /** The number written by the decimal digits from `i` on. */
  function DecimalRun(t: Bytes, i: nat, sum: nat): nat
    requires i <= |t|
    decreases |t| - i
  {
    if i < |t| && IsDigit(t[i]) then DecimalRun(t, i + 1, sum * 10 + (t[i] - DIGIT0)) else sum
  }

  /** `atoi`, which is `strtol` in base 10 cut to an `int`. */
  function StringToInt(t: Bytes): int {
    var i := SkipSpaces(t, 0);
    var negative := i < |t| && t[i] == MINUS;
    var j := if i < |t| && (t[i] == MINUS || t[i] == PLUS) then i + 1 else i;
    var magnitude: int := DecimalRun(t, j, 0);
    ToInt32(if negative then (if magnitude > 0x8000_0000_0000_0000 then -0x8000_0000_0000_0000 else -magnitude)
            else if magnitude >= 0x8000_0000_0000_0000 then 0x7FFF_FFFF_FFFF_FFFF
            else magnitude)
  }

  const SIZE_BUFFER: nat := 20

  datatype Length = NoField | Malformed | Unterminated | Length(size: int)

  /** The Content-Length of a header of `n` bytes. A text of 20 bytes fills the buffer it is copied to
      and leaves it without its terminator. */
  function ContentLength(d: Bytes, n: nat): Length
    requires n <= |d|
  {
    match Find(d, CONTENT_LENGTH_FIELD, n)
    case None => NoField
    case Some(field) =>
      match FindText(d[field..n], LINE_END)
      case None => Malformed
      case Some(lineEnd) =>
        match Find(d[field..], [COLON], lineEnd)
        case None => Malformed
        case Some(colon) =>
          var text := d[field + colon + 1..field + lineEnd];
          if |text| > SIZE_BUFFER then Malformed
          else if |text| == SIZE_BUFFER then Unterminated
          else Length(StringToInt(text))
  }

  /** What becomes of a message of which the header has `n` bytes and announces `size` more. */
  function Sized(d: Bytes, n: nat, size: int): Outcome
    requires n <= |d|
  {
    if n + size >= 0x8000_0000 then OutsideBuffer
    else if |d| < n + size then Incomplete
    else if size < 0 then Throws
    else Complete(d[n..n + size], n + size)
  }

  // ---------------------------------------------------------------- the chunk loop

  /** `OutsideBuffer` and `Throws` stand for what the C++ leaves undefined or throws. */
  datatype Outcome =
    | Incomplete
    | Refused
    | OutsideBuffer
    | Throws
    | Complete(content: Bytes, size: nat)

  datatype SizeEnd = EndAt(position: nat) | NoEnd | EndOutside

  /** The search for the line end of a chunk size: `p` is where the pass began, `index` how far the
      search has come. */
  function FindSizeEnd(d: Bytes, p: nat, index: nat): (r: SizeEnd)
    requires p <= |d|
    ensures r.EndAt? ==> p + 2 + index <= r.position && r.position + 2 <= |d| && At(d, r.position, LINE_END)
    decreases |d| - p - index
  {
    if index + 1 >= |d| - p then NoEnd
    else if p + 2 + index >= |d| then EndOutside
    else if d[p + 2 + index] != CR then FindSizeEnd(d, p, index + 1)
    else if p + 3 + index >= |d| then EndOutside
    else if d[p + 3 + index] == LF then EndAt(p + 2 + index)
    else FindSizeEnd(d, p, index + 1)
  }

  /** The passes of the loop from position `p`. */
  function Chunks(d: Bytes, p: nat, content: Bytes): Outcome
    decreases |d| - p
  {
    if p >= |d| then Complete(content, |d|)
    else if d[p] != CR && p + 1 >= |d| then OutsideBuffer
    else if d[p] != CR && d[p + 1] != LF then Refused
    else
      match FindSizeEnd(d, p, 0)
      case NoEnd => Refused
      case EndOutside => OutsideBuffer
      case EndAt(e) =>
        var size := ChunkSize(d[p + 2..e]);
        if p + size > |d| then Refused
        else if size < 0 then Throws
        else if e + 2 + size > |d| then OutsideBuffer
        else
          var longer := content + d[e + 2..e + 2 + size];
          if size == 0 then Complete(longer, |d|) else Chunks(d, e + 2 + size, longer)
  }

  /** `RecvHandler` */
  function Handle(d: Bytes): Outcome {
    if d == [] then Incomplete
    else
      match Find(d, LINE_END + LINE_END, |d|)
      case None => Incomplete
      case Some(h) =>
        match ContentLength(d, h + 4)
        case Malformed => Incomplete
        case Unterminated => OutsideBuffer
        case Length(size) => Sized(d, h + 4, size)
        case NoField =>
          if |d| < 7 then OutsideBuffer
          else if !At(d, |d| - 7, BODY_END) then Incomplete
          else Chunks(d, h + 2, [])
  }

  class HttpRequestObject {
    var isComplete: bool
    var contents: seq<Bytes>           // what RecvContent has been given

    constructor ()
      ensures !isComplete && contents == []
    {
      isComplete, contents := false, [];
    }

    method RecvHandler(d: Bytes) returns (r: Outcome)
      modifies this
      ensures r == Handle(d)
      ensures contents == if r.Complete? then old(contents) + [r.content] else old(contents)
      ensures isComplete == (old(isComplete) || r.Complete?)
    {
      hide Find, Chunks, ContentLength, Sized;
      if |d| == 0 { return Incomplete; }
      var found := Strnstr(d, LINE_END + LINE_END, |d|);
      if found == None { return Incomplete; }
      var headerSize := found.value + 4;
      var length := ReadContentLength(d, headerSize);
      match length {
        case Malformed => return Incomplete;
        case Unterminated => return OutsideBuffer;
        case Length(size) => r := TakeSized(d, headerSize, size);
        case NoField =>
          if |d| < 7 { return OutsideBuffer; }
          if d[|d| - 7..] != BODY_END { return Incomplete; }
          r := DecodeChunks(d, headerSize - 2);
      }
      if r.Complete? {
        contents := contents + [r.content];
        isComplete := true;
      }
    }

    method ReadContentLength(d: Bytes, headerSize: nat) returns (r: Length)
      requires headerSize <= |d|
      ensures r == ContentLength(d, headerSize)
    {
      hide Find, StringToInt;
      var field := Strnstr(d, CONTENT_LENGTH_FIELD, headerSize);
      if field == None { return NoField; }
      var lineEnd := FindText(d[field.value..headerSize], LINE_END);
      if lineEnd == None { return Malformed; }
      var colon := Strnstr(d[field.value..], [COLON], lineEnd.value);
      if colon == None { return Malformed; }
      var text := d[field.value + colon.value + 1..field.value + lineEnd.value];
      if |text| > SIZE_BUFFER { return Malformed; }
      if |text| == SIZE_BUFFER { return Unterminated; }
      return Length(StringToInt(text));
    }

    method TakeSized(d: Bytes, headerSize: nat, size: int) returns (r: Outcome)
      requires headerSize <= |d|
      ensures r == Sized(d, headerSize, size)
    {
      if headerSize + size >= 0x8000_0000 { return OutsideBuffer; }
      if |d| < headerSize + size { return Incomplete; }
      if size < 0 { return Throws; }
      return Complete(d[headerSize..headerSize + size], headerSize + size);
    }

    /** The loop over the chunks. */
    method DecodeChunks(d: Bytes, start: nat) returns (r: Outcome)
      ensures r == Chunks(d, start, [])
    {
      hide FindSizeEnd, ChunkSize, At;
      var current := start;
      var content: Bytes := [];
      while current < |d|
        invariant Chunks(d, current, content) == Chunks(d, start, [])
        decreases |d| - current
      {
        if d[current] != CR {
          if current + 1 >= |d| { return OutsideBuffer; }
          if d[current + 1] != LF { return Refused; }
        }
        var end := SearchSizeEnd(d, current);
        if end.NoEnd? { return Refused; }
        if end.EndOutside? { return OutsideBuffer; }
        var chunkSize := ChunkSize(d[current + 2..end.position]);
        if current + chunkSize > |d| { return Refused; }
        if chunkSize < 0 { return Throws; }
        if end.position + 2 + chunkSize > |d| { return OutsideBuffer; }
        content := content + d[end.position + 2..end.position + 2 + chunkSize];
        if chunkSize == 0 { return Complete(content, |d|); }
        current := end.position + 2 + chunkSize;
      }
      return Complete(content, |d|);
    }

    method SearchSizeEnd(d: Bytes, p: nat) returns (r: SizeEnd)
      requires p < |d|
      ensures r == FindSizeEnd(d, p, 0)
    {
      var maxSize := |d| - p;
      var index := 0;
      while index < maxSize
        invariant 0 <= index <= maxSize
        invariant FindSizeEnd(d, p, index) == FindSizeEnd(d, p, 0)
      {
        if index + 1 < maxSize {
          if p + 2 + index >= |d| { return EndOutside; }
          if d[p + 2 + index] == CR {
            if p + 3 + index >= |d| { return EndOutside; }
            if d[p + 3 + index] == LF { return EndAt(p + 2 + index); }
          }
        }
        index := index + 1;
      }
      return NoEnd;
    }
  }
}
