/**
 * The manifest reader: a single-pass cursor over the output of `sha256sum -z`,
 * a buffer of NUL-terminated lines `<64 hex chars><2 separator chars><path>`.
 */
module Manifest {
  import opened Common

  const HashLen: nat := 64
  const SepLen: nat := 2

  /** The whole-file check main makes before reading any line: non-empty, last byte NUL. */
  predicate Gate(content: seq<char>)
    ensures Gate(content) ==> Terminated(content, 0) && 0 < |content|
  {
    |content| > 0 && content[|content| - 1] == '\0'
  }

  /**
   * What keeps `strlen` inside the buffer: the part of `content` from `at` on
   * is either empty or ends in NUL.
   */
  predicate Terminated(content: seq<char>, at: nat) {
    at <= |content| && (at < |content| ==> content[|content| - 1] == '\0')
  }

  /** `strlen(content + at)`: the distance from `at` to the next NUL. */
  function LineLength(content: seq<char>, at: nat): (n: nat)
    requires at < |content| && content[|content| - 1] == '\0'
    ensures at + n < |content| && content[at + n] == '\0'
    decreases |content| - at
  {
    if content[at] == '\0' then 0 else 1 + LineLength(content, at + 1)
  }

  /** The NUL `LineLength` stops at is the first one from `at` on. */
  lemma {:induction false} LineLengthFirstNul(content: seq<char>, at: nat)
    requires at < |content| && content[|content| - 1] == '\0'
    ensures forall k :: at <= k < at + LineLength(content, at) ==> content[k] != '\0'
    decreases |content| - at
  {
    if content[at] != '\0' {
      LineLengthFirstNul(content, at + 1);
    }
  }

  /** A parsed line: the digest the manifest expects and the path it names. */
  datatype Entry = Entry(expected: Hash, path: string)

  /** What one call of the cursor finds at offset `at`. */
  datatype Step =
    | End                           // content_size == 0
    | Rejected                      // short line, or parse_hash failed
    | Line(entry: Entry, next: nat) // a good line; the cursor moves to `next`

  /**
   * The line at `at`. `parseHash` stands for `parse_hash` of hash.h, which
   * receives the line.
   */
  function NextLine(content: seq<char>, at: nat, parseHash: string -> Option<Hash>): (s: Step)
    requires Terminated(content, at)
    ensures s.End? <==> at == |content|
    ensures s.Line? ==>
              && at + HashLen + SepLen < s.next <= |content|
              && content[s.next - 1] == '\0'
              && s.entry.path == content[at + HashLen + SepLen .. s.next - 1]
              && parseHash(content[at .. s.next - 1]) == Some(s.entry.expected)
    ensures s.Rejected? ==>
              && at < |content|
              && (|| LineLength(content, at) < HashLen + SepLen
                  || parseHash(content[at .. at + LineLength(content, at)]).None?)
  {
    if at == |content| then End
    else
      var lineSize := LineLength(content, at);
      if lineSize < HashLen + SepLen then Rejected
      else
        match parseHash(content[at .. at + lineSize])
        case None => Rejected
        case Some(h) => Line(Entry(h, content[at + HashLen + SepLen .. at + lineSize]), at + lineSize + 1)
  }

  /** A line the cursor accepts holds no NUL before its terminator. */
  lemma NextLineWhole(content: seq<char>, at: nat, parseHash: string -> Option<Hash>)
    requires Terminated(content, at)
    ensures NextLine(content, at, parseHash).Line? ==>
              forall k :: at <= k < NextLine(content, at, parseHash).next - 1 ==> content[k] != '\0'
  {
    if at < |content| {
      LineLengthFirstNul(content, at);
    }
  }

  /** What `next_hash_and_file` hands back for a step. */
  function Returned(s: Step, manifestPath: string, lineNumber: nat): Result<Option<Entry>, Error> {
    match s
    case End => Ok(None)
    case Rejected => Err(IncorrectHashLine(manifestPath, lineNumber))
    case Line(e, _) => Ok(Some(e))
  }

  /** Where the cursor stands after a step taken at `at`. */
  function Advance(s: Step, at: nat): nat {
    if s.Line? then s.next else at
  }

  /** Every entry the cursor yields from `at` on, and whether it then reached the end. */
  datatype Listing = Listing(entries: seq<Entry>, complete: bool)

  function Scan(content: seq<char>, at: nat, parseHash: string -> Option<Hash>): (l: Listing)
    requires Terminated(content, at)
    ensures (HashLen + SepLen + 1) * |l.entries| <= |content| - at
    ensures l.entries == [] && l.complete <==> at == |content|
    decreases |content| - at
  {
    match NextLine(content, at, parseHash)
    case End => Listing([], true)
    case Rejected => Listing([], false)
    case Line(e, next) =>
      var rest := Scan(content, next, parseHash);
      Listing([e] + rest.entries, rest.complete)
  }

  /** Bytes taken by the lines of `entries`: hash, separator, path and the NUL. */
  function LinesSize(entries: seq<Entry>): nat {
    if entries == [] then 0 else HashLen + SepLen + |entries[0].path| + 1 + LinesSize(entries[1..])
  }

  /**
   * A manifest the cursor reads to the end is consumed exactly: the lines it
   * yields add up to the remaining size, so `content_size` reaches 0 and never
   * wraps below it.
   */
  lemma {:induction false} ScanConsumesAll(content: seq<char>, at: nat, parseHash: string -> Option<Hash>)
    requires Terminated(content, at)
    ensures Scan(content, at, parseHash).complete ==>
              LinesSize(Scan(content, at, parseHash).entries) == |content| - at
    decreases |content| - at
  {
    match NextLine(content, at, parseHash)
    case End =>
    case Rejected =>
    case Line(e, next) =>
      ScanConsumesAll(content, next, parseHash);
      var rest := Scan(content, next, parseHash);
      assert Scan(content, at, parseHash).entries == [e] + rest.entries;
      assert ([e] + rest.entries)[1..] == rest.entries;
  }

  /** `Hash_Sum_File`: the cursor `next_hash_and_file` moves along the manifest. */
  class HashSumFile {
    const contentFilePath: string
    const content: seq<char>
    var offset: nat       // how far `hsf->content` has moved past the start of the mapping
    var contentSize: nat  // `hsf->content_size`
    var lineNumber: nat   // `hsf->line_number`

    ghost predicate Valid()
      reads this
    {
      offset + contentSize == |content| && Terminated(content, offset)
    }

    /** `make_hash_sum_file`: a cursor at the start of the whole mapping, at line 0. */
    constructor (contentFilePath: string, content: seq<char>)
      ensures this.contentFilePath == contentFilePath && this.content == content
      ensures offset == 0 && contentSize == |content| && lineNumber == 0
      ensures Valid() <==> Terminated(content, 0)
    {
      this.contentFilePath := contentFilePath;
      this.content := content;
      offset := 0;
      contentSize := |content|;
      lineNumber := 0;
    }

    /**
     * `next_hash_and_file`: `Ok(None)` at the end (the NULL return), the line's
     * entry otherwise, having moved past the line and its NUL; a bad line is
     * the fatal error that names the line number, which is never incremented.
     */
    method Next(parseHash: string -> Option<Hash>) returns (r: Result<Option<Entry>, Error>)
      requires Valid()
      modifies this
      ensures Valid() && lineNumber == old(lineNumber)
      ensures r == Returned(NextLine(content, old(offset), parseHash), contentFilePath, old(lineNumber))
      ensures offset == Advance(NextLine(content, old(offset), parseHash), old(offset))
      ensures r == Ok(None) <==> old(contentSize) == 0
      ensures r.Ok? && r.value.Some? ==> contentSize < old(contentSize)
      ensures !(r.Ok? && r.value.Some?) ==> contentSize == old(contentSize)
    {
      if contentSize > 0 {
        var lineSize := LineLength(content, offset);
        if lineSize < HashLen + SepLen {
          return Err(IncorrectHashLine(contentFilePath, lineNumber));
        }
        var parsed := parseHash(content[offset .. offset + lineSize]);
        if parsed.None? {
          return Err(IncorrectHashLine(contentFilePath, lineNumber));
        }
        var filePath := content[offset + HashLen + SepLen .. offset + lineSize];
        offset := offset + lineSize + 1;
        contentSize := contentSize - (lineSize + 1);
        return Ok(Some(Entry(parsed.value, filePath)));
      } else {
        return Ok(None);
      }
    }
  }
}
