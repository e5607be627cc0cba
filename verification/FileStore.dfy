/** Files by path, and what positioned reads and writes do to their bytes. */
module FileStore {
  import opened Bytes

  type Content = seq<byte>

  /** A read at an offset into a zeroed buffer: bytes past the end stay zero. */
  function ReadAt(c: Content, off: nat, n: nat): (r: seq<byte>)
    ensures |r| == n
  {
    seq(n, i requires 0 <= i < n => if off + i < |c| then c[off + i] else 0)
  }

  /** A write at an offset: the file grows, with zeros before the offset, when it ends earlier. A write of no bytes does nothing. */
  function WriteAt(c: Content, off: nat, data: seq<byte>): (r: Content)
  {
    var n := if data != [] && off + |data| > |c| then off + |data| else |c|;
    seq(n, i requires 0 <= i < n =>
      if off <= i < off + |data| then data[i - off] else if i < |c| then c[i] else 0)
  }

  /** A read back sees the data written, and reads elsewhere see what was there. */
  lemma ReadAfterWrite(c: Content, off: nat, data: seq<byte>, at: nat, n: nat)
    ensures ReadAt(WriteAt(c, off, data), off, |data|) == data
    ensures at + n <= off || off + |data| <= at ==> ReadAt(WriteAt(c, off, data), at, n) == ReadAt(c, at, n)
  {
  }

  /** The first n bytes of the data, or all of it. */
  function Front(data: seq<byte>, n: nat): (r: seq<byte>) {
    data[..if n < |data| then n else |data|]
  }

  /** Where only a front of the data was written, a read sees that front and then what was there. */
  lemma PartlyWritten(c: Content, off: nat, data: seq<byte>, n: nat)
    ensures var front := Front(data, n);
            ReadAt(WriteAt(c, off, front), off, |data|) == front + ReadAt(c, off + |front|, |data| - |front|)
  {
  }

  /** So it sees the data exactly when the rest of them was there already. */
  lemma PartlyWrittenExactly(c: Content, off: nat, data: seq<byte>, n: nat)
    ensures var front := Front(data, n);
            ReadAt(WriteAt(c, off, front), off, |data|) == data <==>
              ReadAt(c, off + |front|, |data| - |front|) == data[|front|..]
  {
    var front := Front(data, n);
    var rest := ReadAt(c, off + |front|, |data| - |front|);
    PartlyWritten(c, off, data, n);
    assert data == front + data[|front|..];
    if front + rest == data { assert rest == data[|front|..] by { assert (front + rest)[|front|..] == rest; } }
  }

  /** An operator-mounted image: its directory and its base name. */
  datatype Image = Image(dir: string, name: string)

  /**
   The files of an image directory: the images themselves, each client's
   persistent copies under .splinter, and throwaway copies under .transient,
   of a session's drive (Scratch) or of a drive of the shared rack (DriveScratch).
   Client names are taken as they read after sanitising.
   */
  datatype Path =
    | Base(image: Image)
    | Splinter(dir: string, client: string, drive: nat)
    | Scratch(dir: string, tag: string, drive: nat, unique: nat)
    | DriveScratch(dir: string, drive: nat, unique: nat)
    | CommitTemp(image: Image)

  type Files = map<Path, Content>
}
