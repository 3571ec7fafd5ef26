/** The optimistic-concurrency revision of a page bundle: every file's relative path
    and bytes, in path order, length-prefixed and fed to one hash. */
module ContentRevision {
  import opened Common

  datatype File = File(rel: Bytes, raw: Bytes)

  // ----- the stream -----

  function Digit(d: nat): Byte
    requires d < 10
  {
    ('0' as int + d) as char
  }

  function Digits(n: nat): Bytes {
    if n < 10 then [Digit(n)] else Digits(n / 10) + [Digit(n % 10)]
  }

  /** A block of bytes behind its decimal length and a colon, closed by a newline. */
  function Block(b: Bytes): Bytes {
    Digits(|b|) + [':'] + b + ['\n']
  }

  function Frame(f: File): Bytes {
    Block(f.rel) + Block(f.raw)
  }

  function Encode(fs: seq<File>): Bytes {
    if fs == [] then [] else Frame(fs[0]) + Encode(fs[1..])
  }

  // ----- a decoder -----

  predicate IsDigit(c: Byte) { '0' <= c <= '9' }

  function DigitValue(c: Byte): nat
    requires IsDigit(c)
  {
    c as int - '0' as int
  }

  function Append(acc: nat, digits: Bytes): nat
    requires forall c <- digits :: IsDigit(c)
    decreases digits
  {
    if digits == [] then acc else Append(acc * 10 + DigitValue(digits[0]), digits[1..])
  }

  /** A decimal number and its colon off the front. */
  function ReadNumber(acc: nat, s: Bytes): (r: Option<(nat, Bytes)>)
    ensures r.Some? ==> |r.value.1| < |s|
    decreases s
  {
    if s == [] then None
    else if s[0] == ':' then Some((acc, s[1..]))
    else if IsDigit(s[0]) then ReadNumber(acc * 10 + DigitValue(s[0]), s[1..])
    else None
  }

  /** A length-prefixed block and the newline behind it. */
  function ReadBlock(s: Bytes): (r: Option<(Bytes, Bytes)>)
    ensures r.Some? ==> |r.value.1| < |s|
  {
    match ReadNumber(0, s)
    case None => None
    case Some((n, rest)) =>
      if n < |rest| && rest[n] == '\n' then Some((rest[..n], rest[n+1..])) else None
  }

  function Decode(s: Bytes): Option<seq<File>>
    decreases |s|
  {
    if s == [] then Some([])
    else match ReadBlock(s)
      case None => None
      case Some((rel, s1)) =>
        match ReadBlock(s1)
        case None => None
        case Some((raw, s2)) =>
          match Decode(s2)
          case None => None
          case Some(fs) => Some([File(rel, raw)] + fs)
  }

  lemma {:induction false} DigitsAreDigits(n: nat)
    ensures Digits(n) != [] && forall c <- Digits(n) :: IsDigit(c)
  {
    if n >= 10 {
      DigitsAreDigits(n / 10);
    }
  }

  lemma {:induction false} AppendLast(acc: nat, digits: Bytes, d: Byte)
    requires (forall c <- digits :: IsDigit(c)) && IsDigit(d)
    ensures Append(acc, digits + [d]) == Append(acc, digits) * 10 + DigitValue(d)
    decreases digits
  {
    if digits != [] {
      AppendLast(acc * 10 + DigitValue(digits[0]), digits[1..], d);
      assert (digits + [d])[1..] == digits[1..] + [d];
    }
  }

  lemma {:induction false} DigitsValue(n: nat)
    ensures forall c <- Digits(n) :: IsDigit(c)
    ensures Append(0, Digits(n)) == n
  {
    DigitsAreDigits(n);
    if n >= 10 {
      DigitsValue(n / 10);
      AppendLast(0, Digits(n / 10), Digit(n % 10));
    }
  }

  lemma {:induction false} ReadsDigits(acc: nat, digits: Bytes, rest: Bytes)
    requires forall c <- digits :: IsDigit(c)
    ensures ReadNumber(acc, digits + [':'] + rest) == Some((Append(acc, digits), rest))
    decreases digits
  {
    var s := digits + [':'] + rest;
    if digits == [] {
      assert s[1..] == rest;
    } else {
      ReadsDigits(acc * 10 + DigitValue(digits[0]), digits[1..], rest);
      assert s[1..] == digits[1..] + [':'] + rest;
    }
  }

  lemma ReadsBlock(b: Bytes, rest: Bytes)
    ensures Block(b) + rest != [] && ReadBlock(Block(b) + rest) == Some((b, rest))
  {
    var tail: Bytes := b + ['\n'] + rest;
    DigitsValue(|b|);
    ReadsDigits(0, Digits(|b|), tail);
    assert Block(b) + rest == Digits(|b|) + [':'] + tail;
    assert tail[..|b|] == b && tail[|b|+1..] == rest;
  }

  /** The stream determines the list: decimal lengths, paths holding any bytes
      (newlines, colons and digits included) and contents are all recovered. */
  lemma {:induction false} DecodeEncode(fs: seq<File>)
    ensures Decode(Encode(fs)) == Some(fs)
  {
    if fs != [] {
      var f, rest := fs[0], Encode(fs[1..]);
      assert Encode(fs) == Block(f.rel) + (Block(f.raw) + rest);
      ReadsBlock(f.rel, Block(f.raw) + rest);
      ReadsBlock(f.raw, rest);
      DecodeEncode(fs[1..]);
      assert fs == [f] + fs[1..];
    }
  }

  lemma EncodeInjective(fs: seq<File>, gs: seq<File>)
    ensures Encode(fs) == Encode(gs) <==> fs == gs
  {
    DecodeEncode(fs);
    DecodeEncode(gs);
  }

  // ----- the order of the files -----

  function Rel(f: File): string { f.rel }

  /** A directory walk lists each path of the bundle once, in any order. */
  ghost predicate IsWalk(fs: seq<File>, bundle: map<Bytes, Bytes>) {
    && (forall i, j :: 0 <= i < j < |fs| ==> fs[i].rel != fs[j].rel)
    && (forall f: File :: f in fs <==> f.rel in bundle && bundle[f.rel] == f.raw)
  }

  function SortByPath(fs: seq<File>): seq<File> { SortBy(Rel, fs) }

  // ----- the revision -----

  /** `walk` is what the directory walk collected; a file in `unreadable` cannot be
      read back when it is hashed. */
  method BundleRevision(walk: seq<File>, unreadable: set<Bytes>, sum: Bytes -> string)
    returns (rev: Option<string>)
    ensures rev.None? <==> exists f <- walk :: f.rel in unreadable
    ensures rev.Some? ==> rev.value == "sha256:" + sum(Encode(SortByPath(walk)))
  {
    var files := [];
    for i := 0 to |walk|
      invariant files == walk[..i]
    {
      files := files + [walk[i]];
    }
    files := SortByPath(files);
    assert walk[..|walk|] == walk;
    SortKeeps(Rel, walk);
    var fed: Bytes := [];
    for i := 0 to |files|
      invariant fed + Encode(files[i..]) == Encode(files)
      invariant forall k :: 0 <= k < i ==> files[k].rel !in unreadable
    {
      if files[i].rel in unreadable {
        assert files[i] in walk;
        return None;
      }
      assert files[i..][0] == files[i] && files[i..][1..] == files[i+1..];
      assert fed + Encode(files[i..]) == fed + Frame(files[i]) + Encode(files[i+1..]);
      fed := Feed(fed, files[i]);
    }
    assert fed + Encode(files[|files|..]) == fed;
    return Some("sha256:" + sum(fed));
  }

  /** The three writes of one file add up to its frame. */
  method Feed(fed: Bytes, f: File) returns (fed': Bytes)
    ensures fed' == fed + Frame(f)
    ensures fed' == fed + Digits(|f.rel|) + ":" + f.rel + "\n" + Digits(|f.raw|) + ":" + f.raw + "\n"
  {
    fed' := fed + (Digits(|f.rel|) + [':'] + f.rel + ['\n'] + Digits(|f.raw|) + [':']);
    fed' := fed' + f.raw;
    fed' := fed' + ['\n'];
  }

  /** Two bundles feed the hash the same bytes exactly when they hold the same paths
      with the same contents, in whatever order their directories were walked. */
  lemma SameStreamIffSameBundle(walk1: seq<File>, bundle1: map<Bytes, Bytes>, walk2: seq<File>, bundle2: map<Bytes, Bytes>)
    requires IsWalk(walk1, bundle1) && IsWalk(walk2, bundle2)
    ensures Encode(SortByPath(walk1)) == Encode(SortByPath(walk2)) <==> bundle1 == bundle2
  {
    var s1, s2 := SortByPath(walk1), SortByPath(walk2);
    SortSorts(Rel, walk1);
    SortKeeps(Rel, walk1);
    SortSorts(Rel, walk2);
    SortKeeps(Rel, walk2);
    EncodeInjective(s1, s2);
    if s1 == s2 {
      forall p | p in bundle1 || p in bundle2
        ensures p in bundle1 && p in bundle2 && bundle1[p] == bundle2[p]
      {
        var f := if p in bundle1 then File(p, bundle1[p]) else File(p, bundle2[p]);
        assert f in walk1 <==> f in s1;
        assert f in walk2 <==> f in s2;
      }
    }
    if bundle1 == bundle2 {
      forall f ensures f in s1 <==> f in s2 {
        assert f in walk1 <==> f in walk2;
      }
      AscendingUnique(Rel, s1, s2);
    }
  }

  /** With a collision-free hash the revision moves on any edit, rename, addition or
      removal in the bundle, and only then. */
  lemma RevisionMovesWithBundle(walk1: seq<File>, bundle1: map<Bytes, Bytes>, walk2: seq<File>, bundle2: map<Bytes, Bytes>,
                                sum: Bytes -> string)
    requires IsWalk(walk1, bundle1) && IsWalk(walk2, bundle2)
    requires forall x, y :: sum(x) == sum(y) ==> x == y
    ensures "sha256:" + sum(Encode(SortByPath(walk1))) == "sha256:" + sum(Encode(SortByPath(walk2)))
      <==> bundle1 == bundle2
  {
    var x, y := Encode(SortByPath(walk1)), Encode(SortByPath(walk2));
    SameStreamIffSameBundle(walk1, bundle1, walk2, bundle2);
    assert ("sha256:" + sum(x))[7..] == sum(x) && ("sha256:" + sum(y))[7..] == sum(y);
  }
}
