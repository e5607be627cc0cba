/** 8.3 names: trimming, padding and the normalisation a write applies. */
module Names {
  import opened Bytes
  import opened Directory
  import opened FileView

  const DOT: byte := 0x2E
  const COLON: byte := 0x3A

  predicate PrintableChar(c: byte) {
    0x20 <= c < 0x7F
  }

  predicate Printable(name: seq<byte>) {
    forall i :: 0 <= i < |name| ==> PrintableChar(name[i])
  }

  /** The ASCII characters `trimEnd` removes. */
  predicate IsWhite(c: byte) {
    c == SPACE || 9 <= c <= 13
  }

  function TrimEnd(name: seq<byte>): (r: seq<byte>)
    ensures |r| <= |name| && r == name[..|r|]
  {
    if name != [] && IsWhite(name[|name| - 1]) then TrimEnd(name[..|name| - 1]) else name
  }

  function Upper(c: byte): byte {
    if 0x61 <= c <= 0x7A then c - 32 else c
  }

  function ToUpper(name: seq<byte>): (r: seq<byte>)
    ensures |r| == |name|
  {
    seq(|name|, i requires 0 <= i < |name| => Upper(name[i]))
  }

  /** Position of the first c, or the length when there is none. */
  function IndexOf(name: seq<byte>, c: byte): (i: nat)
    ensures i <= |name|
    ensures i < |name| ==> name[i] == c
    ensures forall j :: 0 <= j < i ==> name[j] != c
  {
    if name == [] then 0 else if name[0] == c then 0 else 1 + IndexOf(name[1..], c)
  }

  function Truncate(name: seq<byte>, n: nat): seq<byte> {
    if |name| <= n then name else name[..n]
  }

  function StripUser(name: seq<byte>): seq<byte> {
    var colon := IndexOf(name, COLON);
    if colon < |name| && colon <= 2 then name[colon + 1..] else name
  }

  /** `normalizeFilename`: strip a user prefix, split at dots, upper-case, cut to 8.3. */
  function NormalizeFilename(name: seq<byte>): (r: (seq<byte>, seq<byte>))
    ensures |r.0| <= 8 && |r.1| <= 3
  {
    var clean := StripUser(name);
    var dot := IndexOf(clean, DOT);
    var rest := if dot < |clean| then clean[dot + 1..] else [];
    (Truncate(ToUpper(clean[..dot]), 8), Truncate(ToUpper(rest[..IndexOf(rest, DOT)]), 3))
  }

  /** The two parts a write of (filename, ext) uses. */
  function WriteName(filename: seq<byte>, ext: seq<byte>): (r: (seq<byte>, seq<byte>)) {
    NormalizeFilename(filename + [DOT] + ext)
  }

  lemma IndexOfUnique(name: seq<byte>, c: byte, i: nat)
    requires i <= |name| && (i < |name| ==> name[i] == c)
    requires forall j :: 0 <= j < i ==> name[j] != c
    ensures IndexOf(name, c) == i
  {
  }

  /** A name without dots and colons is only upper-cased and cut. */
  lemma PlainWriteName(filename: seq<byte>, ext: seq<byte>)
    requires DOT !in filename && DOT !in ext && COLON !in filename && COLON !in ext
    ensures WriteName(filename, ext) == (Truncate(ToUpper(filename), 8), Truncate(ToUpper(ext), 3))
  {
    var name := filename + [DOT] + ext;
    IndexOfUnique(name, COLON, |name|);
    IndexOfUnique(name, DOT, |filename|);
    assert name[..|filename|] == filename;
    assert name[|filename| + 1..] == ext;
    IndexOfUnique(ext, DOT, |ext|);
    assert ext[..|ext|] == ext;
  }

  lemma PrintablePart(part: seq<byte>, n: nat)
    requires Printable(part)
    ensures Printable(Truncate(ToUpper(part), n))
  {
  }

  lemma PrintableWriteName(filename: seq<byte>, ext: seq<byte>)
    requires Printable(filename) && Printable(ext)
    ensures Printable(WriteName(filename, ext).0) && Printable(WriteName(filename, ext).1)
  {
    var name := filename + [DOT] + ext;
    assert Printable(name);
    var clean := StripUser(name);
    assert Printable(clean);
    var dot := IndexOf(clean, DOT);
    var rest := if dot < |clean| then clean[dot + 1..] else [];
    PrintablePart(clean[..dot], 8);
    PrintablePart(rest[..IndexOf(rest, DOT)], 3);
  }

  lemma {:induction false} TrimPadded(name: seq<byte>, n: nat)
    requires |name| <= n
    ensures TrimEnd(PadEnd(name, n)) == TrimEnd(name)
  {
    if |name| < n {
      assert PadEnd(name, n)[..n - 1] == PadEnd(name, n - 1);
      TrimPadded(name, n - 1);
    }
  }

  lemma {:induction false} TrimTwice(name: seq<byte>)
    ensures TrimEnd(TrimEnd(name)) == TrimEnd(name)
  {
    if name != [] && IsWhite(name[|name| - 1]) {
      TrimTwice(name[..|name| - 1]);
    }
  }

  /** Trimming a printable name removes spaces only, so padding restores it. */
  lemma {:induction false} PadTrimmed(name: seq<byte>, n: nat)
    requires |name| <= n && Printable(name)
    ensures PadEnd(TrimEnd(name), n) == PadEnd(name, n)
  {
    if name != [] && IsWhite(name[|name| - 1]) {
      PadTrimmed(name[..|name| - 1], n);
      assert name[|name| - 1] == SPACE;
      assert PadEnd(name[..|name| - 1], n) == PadEnd(name, n);
    }
  }

  /** Comparing trimmed names is comparing padded ones. */
  lemma SameTrimmed(stored: seq<byte>, n: nat, asked: seq<byte>)
    requires |stored| == n && Printable(stored)
    ensures TrimEnd(stored) == TrimEnd(asked) <==> stored == PadEnd(TrimEnd(asked), n)
  {
    PadTrimmed(stored, n);
    if |TrimEnd(asked)| <= n {
      TrimPadded(TrimEnd(asked), n);
      TrimTwice(asked);
    }
  }

  /** The file a name asks for: trimmed, then padded to 8.3. */
  function FileKey(filename: seq<byte>, ext: seq<byte>, user: byte): Key {
    Key(user, PadEnd(TrimEnd(filename), 8), PadEnd(TrimEnd(ext), 3))
  }

  /** The file a write of the name creates. */
  function WriteKey(filename: seq<byte>, ext: seq<byte>, user: byte): Key {
    Key(user, PadEnd(WriteName(filename, ext).0, 8), PadEnd(WriteName(filename, ext).1, 3))
  }

  ghost predicate PrintableDir(dir: Dir) {
    forall k :: 0 <= k < |dir| && Live(dir[k]) ==> Printable(dir[k].filename) && Printable(dir[k].extension)
  }

  /** A listed file is the one asked for exactly when user and trimmed names agree. */
  lemma ListedIsAsked(key: Key, filename: seq<byte>, ext: seq<byte>, user: byte)
    requires |key.filename| == 8 && |key.extension| == 3 && Printable(key.filename) && Printable(key.extension)
    ensures (key.user == user && TrimEnd(key.filename) == TrimEnd(filename) && TrimEnd(key.extension) == TrimEnd(ext))
            <==> key == FileKey(filename, ext, user)
  {
    SameTrimmed(key.filename, 8, filename);
    SameTrimmed(key.extension, 3, ext);
  }

  /** The key a write deletes first is the key it creates. */
  lemma WriteKeyIsFileKey(filename: seq<byte>, ext: seq<byte>, user: byte)
    requires Printable(filename) && Printable(ext)
    ensures var (f, e) := WriteName(filename, ext); FileKey(f, e, user) == WriteKey(filename, ext, user)
  {
    PrintableWriteName(filename, ext);
    PadTrimmed(WriteName(filename, ext).0, 8);
    PadTrimmed(WriteName(filename, ext).1, 3);
  }

  /** A file written under a plain upper-case 8.3 name is found under that name. */
  lemma PlainNameIsFound(filename: seq<byte>, ext: seq<byte>, user: byte)
    requires Printable(filename) && Printable(ext) && |filename| <= 8 && |ext| <= 3
    requires DOT !in filename && DOT !in ext && COLON !in filename && COLON !in ext
    requires ToUpper(filename) == filename && ToUpper(ext) == ext
    ensures WriteKey(filename, ext, user) == FileKey(filename, ext, user)
  {
    PlainWriteName(filename, ext);
    WriteKeyIsFileKey(filename, ext, user);
  }

  // ---- letters and prefixes ------------------------------------------------

  /** The letters, in either case. */
  const CAPITALS: seq<byte> := seq(26, i requires 0 <= i < 26 => 65 + i)
  const SMALL: seq<byte> := seq(26, i requires 0 <= i < 26 => 97 + i)

  /** Small letters become the capitals of the same place in the alphabet, and nothing else changes. */
  lemma UpperIsCapital(name: seq<byte>, i: nat)
    requires i < |name|
    ensures forall k :: 0 <= k < 26 && name[i] == SMALL[k] ==> ToUpper(name)[i] == CAPITALS[k]
    ensures name[i] !in SMALL ==> ToUpper(name)[i] == name[i]
  {
    forall c: byte | 97 <= c <= 122
      ensures c in SMALL
    {
      assert SMALL[c - 97] == c;
    }
  }

  /** In whatever case a plain name is given to a write, the file is found under its capitals. */
  lemma AnyCaseIsFound(filename: seq<byte>, ext: seq<byte>, user: byte)
    requires Printable(filename) && Printable(ext) && |filename| <= 8 && |ext| <= 3
    requires DOT !in filename && DOT !in ext && COLON !in filename && COLON !in ext
    ensures WriteKey(filename, ext, user) == FileKey(ToUpper(filename), ToUpper(ext), user)
  {
    PlainWriteName(filename, ext);
    WriteKeyIsFileKey(filename, ext, user);
  }

  /** A user prefix of up to two characters and a colon is no part of the name. */
  lemma PrefixIsDropped(prefix: seq<byte>, filename: seq<byte>, ext: seq<byte>)
    requires |prefix| <= 2 && 58 !in prefix + filename + ext
    ensures WriteName(prefix + [58] + filename, ext) == WriteName(filename, ext)
  {
    var name := filename + [DOT] + ext;
    IndexOfUnique(prefix + [58] + name, 58, |prefix|);
    assert (prefix + [58] + name)[|prefix| + 1..] == name;
    assert prefix + [58] + filename + [DOT] + ext == prefix + [58] + name;
    NoColon(name);
    assert StripUser(prefix + [58] + name) == name == StripUser(name);
  }

  lemma NoColon(name: seq<byte>)
    requires 58 !in name
    ensures StripUser(name) == name
  {
    IndexOfUnique(name, 58, |name|);
  }

  /** A colon further back is part of the name. */
  lemma LaterColonStays(prefix: seq<byte>, rest: seq<byte>, ext: seq<byte>)
    requires |prefix| > 2 && 58 !in prefix && DOT !in prefix + rest + ext
    ensures WriteName(prefix + [58] + rest, ext) == (Truncate(ToUpper(prefix + [58] + rest), 8), Truncate(ToUpper(ext), 3))
  {
    var filename := prefix + [58] + rest;
    var name := filename + [DOT] + ext;
    IndexOfUnique(name, 58, |prefix|);
    assert StripUser(name) == name;
    IndexOfUnique(name, DOT, |filename|);
    assert name[..|filename|] == filename && name[|filename| + 1..] == ext;
    IndexOfUnique(ext, DOT, |ext|);
    assert ext[..|ext|] == ext;
  }

  /** The type ends at a second dot. */
  lemma SecondDotEnds(filename: seq<byte>, ext: seq<byte>, rest: seq<byte>)
    requires 46 !in filename + ext && 58 !in filename + ext + rest
    ensures WriteName(filename, ext + [46] + rest) == WriteName(filename, ext)
    ensures WriteName(filename + [46] + ext, rest) == WriteName(filename, ext)
  {
    var name, longer := filename + [46] + ext, filename + [46] + (ext + [46] + rest);
    NoColon(name);
    NoColon(longer);
    assert filename + [46] + ext + [46] + rest == longer;
    IndexOfUnique(name, 46, |filename|);
    IndexOfUnique(longer, 46, |filename|);
    assert name[..|filename|] == filename == longer[..|filename|];
    assert name[|filename| + 1..] == ext && longer[|filename| + 1..] == ext + [46] + rest;
    IndexOfUnique(ext, 46, |ext|);
    IndexOfUnique(ext + [46] + rest, 46, |ext|);
    assert ext[..|ext|] == ext == (ext + [46] + rest)[..|ext|];
  }

  /** A name asked for is taken without the blanks behind it, tabs and line ends included, and with all else. */
  lemma BlanksAreTrimmed(filename: seq<byte>, ext: seq<byte>, user: byte, blank: byte)
    ensures blank in [32, 9, 10, 11, 12, 13] <==> TrimEnd(filename + [blank]) == TrimEnd(filename)
    ensures blank !in [32, 9, 10, 11, 12, 13] <==> TrimEnd(filename + [blank]) == filename + [blank]
    ensures blank in [32, 9, 10, 11, 12, 13] ==> FileKey(filename + [blank], ext, user) == FileKey(filename, ext, user)
    ensures blank in [32, 9, 10, 11, 12, 13] ==> FileKey(filename, ext + [blank], user) == FileKey(filename, ext, user)
  {
    assert (filename + [blank])[..|filename|] == filename;
    assert (ext + [blank])[..|ext|] == ext;
  }

  /** Names are cut behind their eighth character and types behind their third. */
  lemma LongNameIsCut(filename: seq<byte>, more: seq<byte>, ext: seq<byte>, rest: seq<byte>)
    requires |filename| == 8 && |ext| == 3 && DOT !in filename + more + ext + rest && 58 !in filename + more + ext + rest
    ensures WriteName(filename + more, ext + rest) == WriteName(filename, ext) == (ToUpper(filename), ToUpper(ext))
  {
    PlainWriteName(filename, ext);
    PlainWriteName(filename + more, ext + rest);
    CutAt(filename, more, 8);
    CutAt(ext, rest, 3);
    CutAt(filename, [], 8);
    CutAt(ext, [], 3);
    assert filename + [] == filename && ext + [] == ext;
  }

  lemma CutAt(part: seq<byte>, more: seq<byte>, n: nat)
    requires |part| == n
    ensures Truncate(ToUpper(part + more), n) == ToUpper(part)
  {
    var all := ToUpper(part + more);
    assert all[..n] == ToUpper(part);
    assert more == [] ==> all == all[..n];
  }
}
