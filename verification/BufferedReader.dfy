/** The buffered byte reader below the parser: a sliding buffer over an io.Reader, with one byte of pushback. */
module BufferedReader {
  import opened Wrappers
  import opened Bytes

  const MAX_CONSECUTIVE_EMPTY_READS := 100

  /** What one call of the client's Read has ready: some bytes, possibly none, and possibly an error with them. */
  datatype Chunk = Chunk(data: seq<Byte>, err: Option<Error>)

  /**
   * The byte stream a sequence of reads stands for, when k empty reads in a row have already been seen:
   * bytes and errors in order, empty reads invisible except that the 100th in a row is an error.
   * After the last chunk the client reports EOF for ever, which is the empty stream.
   */
  function Stream(chunks: seq<Chunk>, k: nat): seq<Item>
    requires k < MAX_CONSECUTIVE_EMPTY_READS
  {
    if chunks == [] then []
    else
      var c := chunks[0];
      if c.data == [] && c.err.None? then
        if k + 1 == MAX_CONSECUTIVE_EMPTY_READS then Deliver([], Some(NoProgress), Stream(chunks[1..], 0))
        else Stream(chunks[1..], k + 1)
      else Deliver(c.data, c.err, Stream(chunks[1..], 0))
  }

  /** The client's io.Reader, with the results it is going to give. */
  class Source {
    var chunks: seq<Chunk>

    constructor (chunks: seq<Chunk>)
      ensures this.chunks == chunks
    {
      this.chunks := chunks;
    }

    /** Fills p from index w on, as far as the chunk at hand goes; its error comes with its last byte. */
    method Read(p: array<Byte>, w: nat) returns (n: nat, err: Option<Error>)
      requires w <= p.Length
      modifies this, p
      ensures w + n <= p.Length && p[..w] == old(p[..w])
      ensures Delivered(old(chunks), chunks, p.Length - w, p[w..w + n], err)
    {
      if chunks == [] { return 0, Some(EOF); }
      var c := chunks[0];
      n := if |c.data| <= p.Length - w then |c.data| else p.Length - w;
      forall i | 0 <= i < n { p[w + i] := c.data[i]; }
      assert p[w..w + n] == c.data[..n];
      if n == |c.data| {
        chunks, err := chunks[1..], c.err;
      } else {
        chunks, err := [Chunk(c.data[n..], c.err)] + chunks[1..], None;
      }
    }
  }

  /** What one Read into a space of room bytes may give, and what it leaves for later. */
  predicate Delivered(before: seq<Chunk>, after: seq<Chunk>, room: nat, data: seq<Byte>, err: Option<Error>) {
    if before == [] then after == [] && data == [] && err == Some(EOF)
    else
      var c := before[0];
      if |c.data| <= room then after == before[1..] && data == c.data && err == c.err
      else after == [Chunk(c.data[room..], c.err)] + before[1..] && data == c.data[..room] && err.None?
  }

  /** One Read takes exactly its own items off the front of the stream, and an empty one only counts. */
  lemma StreamAfterRead(before: seq<Chunk>, after: seq<Chunk>, room: nat, data: seq<Byte>, err: Option<Error>, k: nat)
    requires 0 < room && k < MAX_CONSECUTIVE_EMPTY_READS
    requires Delivered(before, after, room, data, err)
    ensures before == [] ==> Stream(before, k) == []
    ensures before != [] && (data != [] || err.Some?) ==> Stream(before, k) == Deliver(data, err, Stream(after, 0))
    ensures data == [] && err.None? ==>
              Stream(before, k) == if k + 1 == MAX_CONSECUTIVE_EMPTY_READS
                  then Deliver([], Some(NoProgress), Stream(after, 0))
                                   else Stream(after, k + 1)
  {
    if before != [] && |before[0].data| > room {
      var c := before[0];
      assert c.data == data + c.data[room..] && after[1..] == before[1..];
      DeliverAppend(data, c.data[room..], c.err, Stream(before[1..], 0));
    }
  }

  /** n empty reads. */
  function Empty(n: nat): seq<Chunk> {
    seq(n, _ => Chunk([], None))
  }

  lemma {:induction false} EmptyReads(n: nat, k: nat, chunks: seq<Chunk>)
    requires k + n < 100
    ensures Stream(Empty(n) + chunks, k) == Stream(chunks, k + n)
    decreases n
  {
    if n == 0 {
      assert Empty(0) + chunks == chunks;
    } else {
      assert (Empty(n) + chunks)[1..] == Empty(n - 1) + chunks;
      EmptyReads(n - 1, k + 1, chunks);
    }
  }

  /** Ninety-nine empty reads in a row are not seen; a hundred are an error. */
  lemma HundredEmptyReads(c: Chunk, chunks: seq<Chunk>)
    requires c.data != []
    ensures Stream(Empty(99) + ([c] + chunks), 0) == Stream([c] + chunks, 0)
    ensures Stream(Empty(100) + chunks, 0) == [Fail(NoProgress)] + Stream(chunks, 0)
  {
    EmptyReads(99, 0, [c] + chunks);
    EmptyReads(99, 0, Empty(1) + chunks);
    assert Empty(100) + chunks == Empty(99) + (Empty(1) + chunks);
    assert (Empty(1) + chunks)[1..] == chunks;
    assert ([c] + chunks)[0] == c;
  }

  /** The bytes of a sequence of reads. */
  function Contents(chunks: seq<Chunk>): seq<Byte> {
    if chunks == [] then [] else chunks[0].data + Contents(chunks[1..])
  }

  /** Reads without errors, and never a hundred empty ones in a row, k of which have been seen. */
  predicate Flows(chunks: seq<Chunk>, k: nat) {
    chunks == [] ||
    (chunks[0].err.None? &&
     if chunks[0].data == [] then k + 1 < MAX_CONSECUTIVE_EMPTY_READS && Flows(chunks[1..], k + 1)
         else Flows(chunks[1..], 0))
  }

  /** However the bytes are cut into reads, the stream delivers them in order and nothing else. */
  lemma {:induction false} StreamIsContents(chunks: seq<Chunk>, k: nat)
    requires Flows(chunks, k) && k < MAX_CONSECUTIVE_EMPTY_READS
    ensures Stream(chunks, k) == Deliver(Contents(chunks), None, [])
  {
    if chunks != [] {
      var c, more := chunks[0], chunks[1..];
      StreamIsContents(more, if c.data == [] then k + 1 else 0);
      DeliverAppend(c.data, Contents(more), None, []);
    }
  }

  class BufioReader {
    const buf: array<Byte>
    const rd: Source
    var r: nat
    var w: nat
    var err: Option<Error>
    var nextByte: Option<Byte>
    /** Everything this reader is still going to deliver. */
    ghost var pending: seq<Item>

    /** The part of pending that lies in the buffer and beyond. */
    ghost function Buffered(): seq<Item>
      requires r <= w <= buf.Length
      reads this, buf, rd
    {
      Deliver(buf[r..w], err, Stream(rd.chunks, 0))
    }

    ghost predicate Valid()
      reads this, buf, rd
    {
      && 0 < buf.Length
      && r <= w <= buf.Length
      && pending == (if nextByte.Some? then [Data(nextByte.value)] else []) + Buffered()
    }

    constructor (size: nat, rd: Source)
      requires 0 < size
      ensures Valid() && this.rd == rd && fresh(buf)
      ensures nextByte.None? && pending == Stream(rd.chunks, 0)
    {
      this.buf := new Byte[size](_ => '\0');
      this.rd := rd;
      r, w, err, nextByte := 0, 0, None, None;
      pending := Stream(rd.chunks, 0);
    }

    /**
     * Reads one item of the stream: the next byte, or the error found in its place.
     * At the end of the stream the answer is EOF, however often it is asked for.
     */
    method ReadByte() returns (b: Byte, e: Option<Error>)
      requires Valid()
      modifies this, buf, rd
      ensures Valid() && nextByte.None?
      ensures old(pending) == [] ==> e == Some(EOF) && pending == []
      ensures old(pending) != [] ==>
                && pending == old(pending)[1..]
                && old(pending)[0] == match e { case None => Data(b) case Some(f) => Fail(f) }
    {
      if nextByte.Some? {
        b, nextByte, e := nextByte.value, None, None;
        pending := pending[1..];
        return;
      }
      ghost var ended := false;
      while r == w
        invariant 0 < buf.Length && r <= w <= buf.Length && nextByte.None?
        invariant if ended then pending == [] && r == w && err == Some(EOF) && rd.chunks == []
            else pending == Buffered()
        invariant pending == old(pending)
        decreases if r < w || ended || err.Some? then 0 else 1
      {
        if err.Some? {
          b, e, err := '\0', err, None;
          if !ended {
            pending := Buffered();
          }
          return;
        }
        ended := Fill();
      }
      b, e := buf[r], None;
      assert buf[r..w][1..] == buf[r + 1..w];
      r := r + 1;
      pending := Buffered();
    }

    /** Slides the unread bytes to the beginning of the buffer. */
    method Slide()
      requires r <= w <= buf.Length
      modifies this`r, this`w, buf
      ensures r == 0 && w == old(w - r) && buf[r..w] == old(buf[r..w])
    {
      if r > 0 {
        forall i | 0 <= i < w - r { buf[i] := buf[r + i]; }
        w, r := w - r, 0;
      }
    }

    /** Asks the client once for bytes to put behind the unread ones. */
    method ReadOnce() returns (e: Option<Error>, ghost data: seq<Byte>)
      requires r <= w <= buf.Length
      modifies this`w, buf, rd
      ensures r <= w <= buf.Length && buf[r..w] == old(buf[r..w]) + data
      ensures Delivered(old(rd.chunks), rd.chunks, buf.Length - old(w), data, e)
    {
      var n;
      n, e := rd.Read(buf, w);
      data := buf[w..w + n];
      assert buf[r..w] == buf[..w][r..];
      w := w + n;
    }

    /**
     * Reads one chunk behind the unread bytes. A full buffer would be a panic; ReadByte only fills an empty one.
     * Reports whether the client has nothing left to deliver.
     */
    method Fill() returns (ghost ended: bool)
      requires r <= w <= buf.Length && w - r < buf.Length && err.None?
      modifies this`r, this`w, this`err, buf, rd
      ensures r <= w <= buf.Length && (r < w || err.Some?) && nextByte == old(nextByte) && pending == old(pending)
      ensures ended ==> old(Stream(rd.chunks, 0)) == [] && rd.chunks == [] && err == Some(EOF) && w - r == old(w - r)
      ensures !ended ==> Buffered() == old(Buffered())
    {
      ghost var was, tail := buf[r..w], Stream(rd.chunks, 0);
      Slide();
      var i := MAX_CONSECUTIVE_EMPTY_READS;
      while i > 0
        invariant 0 <= i <= MAX_CONSECUTIVE_EMPTY_READS && r == 0 && w == |was| < buf.Length && err.None?
        invariant buf[r..w] == was && nextByte == old(nextByte) && pending == old(pending)
        invariant tail == if i == 0 then Deliver([], Some(NoProgress), Stream(rd.chunks, 0))
                          else Stream(rd.chunks, MAX_CONSECUTIVE_EMPTY_READS - i)
      {
        ghost var chunks := rd.chunks;
        var from := w;
        var e, data := ReadOnce();
        StreamAfterRead(chunks, rd.chunks, buf.Length - from, data, e, MAX_CONSECUTIVE_EMPTY_READS - i);
        if w > from || e.Some? {
          err, ended := e, chunks == [];
          DeliverAppend(was, data, e, Stream(rd.chunks, 0));
          return;
        }
        i := i - 1;
      }
      assert buf[r..w] == was + [];
      DeliverAppend(was, [], Some(NoProgress), Stream(rd.chunks, 0));
      err, ended := Some(NoProgress), false;
    }

    /** Puts back the byte just read. The slot must be free. */
    method Unread(b: Byte)
      requires Valid() && nextByte.None?
      modifies this
      ensures Valid() && pending == [Data(b)] + old(pending)
    {
      nextByte := Some(b);
      pending := [Data(b)] + pending;
    }
  }
}
