/** The parser of binary IMA runtime measurements. */
module ImaLog {
  import opened Words
  import opened ImaFormat
  import opened Ima

  /** SHA-1, of which only the result size is used. */
  type Sha1Digest = d: seq<Byte> | |d| == 20 witness Zeros(20)
  type Sha1 = seq<Byte> -> Sha1Digest

  /** What is reported for a log entry: the template data that is hashed, and the path. */
  datatype Entry = Entry(data: seq<Byte>, path: seq<Byte>)

  datatype Status = Done | Failed | Overran

  datatype Parsed = Parsed(status: Status, entries: seq<Entry>)

  // ---- One log entry ----

  /** Reads n bytes, or none at all when fewer are left. */
  function Taken(s: seq<Byte>, n: nat): Option<seq<Byte>> {
    if n <= |s| then Some(s[..n]) else None
  }

  function Left(s: seq<Byte>, n: nat): seq<Byte> {
    if n <= |s| then s[n..] else s
  }

  function Or(o: Option<seq<Byte>>, otherwise: seq<Byte>): seq<Byte> {
    if o.Some? then o.value else otherwise
  }

  /** What read_template_data leaves in the entry, and the rest of the log. */
  datatype Read = Read(len: UInt32, data: seq<Byte>, rest: seq<Byte>, overrun: bool)

  /** The number of bytes that a length read from the log asks for: it is a signed 32-bit variable,
      and a negative one becomes a huge size. */
  function Wanted(len: UInt32): UInt64 {
    if len < 0x8000_0000 then len else 0xFFFF_FFFF_0000_0000 + len
  }

  /** read_template_data. Failed reads are ignored: the length then stays what it was, the data zero. */
  function ReadTemplateData(t: Template, s: seq<Byte>, stale: UInt32): (r: Read)
    ensures |r.rest| <= |s| && (!r.overrun ==> |r.data| == r.len)
  {
    if t != Ima then
      var len := if |s| >= 4 then ReadU32(s, 0) else stale;
      var u := Left(s, 4);
      Read(len, if Wanted(len) <= |u| then u[..len] else Zeros(len), Left(u, Wanted(len)), false)
    else
      var digest, u := Or(Taken(s, 20), Zeros(20)), Left(s, 20);
      var len := if |u| >= 4 then ReadU32(u, 0) else 0;
      var v := Left(u, 4);
      var name := Or(Taken(v, len), []);
      if |name| > 256 then Read(276, [], Left(v, len), true)
      else Read(276, digest + name + Zeros(256 - |name|), Left(v, len), false)
  }

  /** The name of an entry and what follows it. */
  function EntryName(s: seq<Byte>): seq<Byte>
    requires |s| >= 28
  {
    CString(Or(Taken(s[28..], ReadU32(s, 24)), []))
  }

  function EntryRead(s: seq<Byte>, stale: UInt32): (r: Read)
    requires |s| >= 28
    ensures |r.rest| < |s| && (!r.overrun ==> |r.data| == r.len)
  {
    ReadTemplateData(TemplateNamed(EntryName(s)), Left(s[28..], ReadU32(s, 24)), stale)
  }

  /** SHA-1 and the module signature parser, the foreign functions of the parser. */
  datatype Foreign = Foreign(sha1: Sha1, modsig: seq<Byte> -> bool)

  /** ima_parse_binary_runtime_measurements on the rest of a log. `stale` is the template length of
      the previous entry, `aliased` whether an unknown template name has been met. */
  function Parse(h: Foreign, s: seq<Byte>, stale: UInt32, aliased: bool): Parsed
    decreases |s|
  {
    if |s| < 28 then Parsed(Done, [])
    else if ReadU32(s, 24) > 255 then Parsed(Failed, [])
    else
      var r := EntryRead(s, stale);
      if r.overrun then Parsed(Overran, [])
      else if h.sha1(r.data) != s[4..24] then Parsed(Failed, [])
      else
        var name := EntryName(s);
        var found := GetTemplateData(Env(name, h.modsig), aliased, r.data);
        match found
        case Overrun => Parsed(Overran, [])
        case Nothing => Parsed(Failed, [])
        case Path(path) =>
          var more := Parse(h, r.rest, r.len, Aliases(name, aliased));
          Parsed(more.status, [Entry(r.data, path)] + more.entries)
  }

  /** The parser stops at an entry of the plain "ima" template, whatever the entry holds. */
  lemma PlainImaStops(h: Foreign, s: seq<Byte>, stale: UInt32, aliased: bool)
    requires |s| >= 28 && TemplateNamed(EntryName(s)) == Ima
    ensures Parse(h, s, stale, aliased).entries == [] && Parse(h, s, stale, aliased).status != Done
  {
    hide GetTemplateData, EntryRead, EntryName, TemplateNamed, ReadU32;
    var r := EntryRead(s, stale);
    if !r.overrun {
      PlainImaHasNoPath(Env(EntryName(s), h.modsig), aliased, r.data);
    }
  }

  // ---- Framing ----

  /** An entry of calculate-ima-pcr as the kernel logs it. */
  datatype Item = Item(pcr: UInt32, t: Template, digest: seq<Byte>, path: seq<Byte>)

  predicate ItemOk(i: Item) {
    (i.t == ImaNg || i.t == ImaSig) && |i.digest| == 32 && PathOk(i.t, i.path)
  }

  /** The template data is short enough for the parser's signed length. */
  predicate Short(i: Item)
    requires ItemOk(i)
  {
    |DataOf(i)| < 0x8000_0000
  }

  predicate ItemsOk(items: seq<Item>) {
    forall i :: i in items ==> ItemOk(i)
  }

  predicate AllShort(items: seq<Item>)
    requires ItemsOk(items)
  {
    forall i :: i in items ==> Short(i)
  }

  function DataOf(i: Item): seq<Byte>
    requires ItemOk(i)
  {
    Build(i.t, i.digest, i.path)
  }

  function Frame(h: Foreign, i: Item): (s: seq<Byte>)
    requires ItemOk(i)
    ensures |s| >= 28
  {
    BytesOfU32(i.pcr) + h.sha1(DataOf(i)) + BytesOfU32(|NameOf(i.t)|) + NameOf(i.t)
      + BytesOfU32(|DataOf(i)|) + DataOf(i)
  }

  function Frames(h: Foreign, items: seq<Item>): seq<Byte>
    requires ItemsOk(items)
  {
    if items == [] then []
    else
      assert ItemOk(items[0]);
      Frame(h, items[0]) + Frames(h, items[1..])
  }

  /** What should be reported. */
  function Reported(items: seq<Item>): seq<Entry>
    requires ItemsOk(items)
  {
    if items == [] then []
    else
      assert ItemOk(items[0]);
      [Entry(DataOf(items[0]), items[0].path)] + Reported(items[1..])
  }

  lemma FrameFields(h: Foreign, i: Item, rest: seq<Byte>)
    requires ItemOk(i)
    ensures var s, n := Frame(h, i) + rest, |NameOf(i.t)|;
            && |s| >= 32 + n + |DataOf(i)|
            && s[4..24] == h.sha1(DataOf(i)) && ReadU32(s, 24) == n && s[28..][..n] == NameOf(i.t)
            && ReadU32(s[28..][n..], 0) == |DataOf(i)|
            && s[28..][n..][4..][..|DataOf(i)|] == DataOf(i)
            && s[28..][n..][4..][|DataOf(i)|..] == rest
  {
    hide ReadU32, BytesOfU32, Build, NameOf;
    var s, n, data := Frame(h, i) + rest, |NameOf(i.t)|, DataOf(i);
    assert s[24..28] == BytesOfU32(n);
    ReadSlice(s, 24);
    var u := BytesOfU32(|data|) + data + rest;
    assert s[28..] == NameOf(i.t) + u;
    assert s[28..][..n] == NameOf(i.t) && s[28..][n..] == u;
    assert u[0..4] == BytesOfU32(|data|);
    ReadSlice(u, 0);
    assert u[4..] == data + rest;
  }

  /** A framed entry is read back: its template, its data, and nothing of what follows. */
  lemma FrameReads(h: Foreign, i: Item, rest: seq<Byte>, stale: UInt32)
    requires ItemOk(i) && Short(i)
    ensures var s := Frame(h, i) + rest;
            && EntryName(s) == NameOf(i.t) && TemplateNamed(EntryName(s)) == i.t
            && EntryRead(s, stale) == Read(|DataOf(i)|, DataOf(i), rest, false)
  {
    hide ReadU32, Frame, Build, NameOf, TemplateNamed, CString;
    FrameFields(h, i, rest);
    CStringOfAll(NameOf(i.t));
    NamesDiffer(i.t);
  }

  lemma {:induction false} CStringOfAll(s: seq<Byte>)
    requires NulFree(s)
    ensures CString(s) == s
  {
    if s != [] {
      CStringOfAll(s[1..]);
    }
  }

  lemma ParseUnfolds(h: Foreign, i: Item, rest: seq<Byte>, stale: UInt32, aliased: bool)
    requires ItemOk(i) && Short(i)
    ensures var more := Parse(h, rest, |DataOf(i)|, aliased);
            Parse(h, Frame(h, i) + rest, stale, aliased)
                == Parsed(more.status, [Entry(DataOf(i), i.path)] + more.entries)
  {
    hide ReadU32, Frame, Build, GetTemplateData, EntryRead, EntryName, NameOf;
    FrameReads(h, i, rest, stale);
    FrameFields(h, i, rest);
    ParseUndoesBuild(Env(NameOf(i.t), h.modsig), i.t, aliased, i.digest, i.path);
  }

  /** An entry byte by byte, under any name but that of the plain template: more than 255 bytes of name or
      a sum that is not that of the data end the parse, and so does data that yields no path. */
  lemma EntryParses(h: Foreign, pcr: UInt32, sum: Sha1Digest, name: seq<Byte>, data: seq<Byte>, rest: seq<Byte>,
                    stale: UInt32, aliased: bool)
    requires NulFree(name) && name != Ascii("ima") && |name| < 0x1_0000_0000 && |data| < 0x8000_0000
    ensures var s := BytesOfU32(pcr) + sum + BytesOfU32(|name|) + name + BytesOfU32(|data|) + data + rest;
            Parse(h, s, stale, aliased) ==
            if |name| > 255 || sum != h.sha1(data) then Parsed(Failed, [])
            else
              match GetTemplateData(Env(name, h.modsig), aliased, data)
              case Overrun => Parsed(Overran, [])
              case Nothing => Parsed(Failed, [])
              case Path(path) =>
                var more := Parse(h, rest, |data|, Aliases(name, aliased));
                Parsed(more.status, [Entry(data, path)] + more.entries)
  {
    hide ReadU32, GetTemplateData, NameOf, Ascii, CString, BytesOfU32, Aliases;
    var s := BytesOfU32(pcr) + sum + BytesOfU32(|name|) + name + BytesOfU32(|data|) + data + rest;
    assert s[24..28] == BytesOfU32(|name|);
    ReadSlice(s, 24);
    if |name| <= 255 {
      EntryBytes(pcr, sum, name, data, rest, stale);
    }
  }

  lemma EntryBytes(pcr: UInt32, sum: Sha1Digest, name: seq<Byte>, data: seq<Byte>, rest: seq<Byte>, stale: UInt32)
    requires NulFree(name) && name != Ascii("ima") && |name| <= 255 && |data| < 0x8000_0000
    ensures var s := BytesOfU32(pcr) + sum + BytesOfU32(|name|) + name + BytesOfU32(|data|) + data + rest;
            && s[4..24] == sum && EntryName(s) == name && EntryRead(s, stale) == Read(|data|, data, rest, false)
  {
    hide ReadU32, Ascii, BytesOfU32, CString;
    var s := BytesOfU32(pcr) + sum + BytesOfU32(|name|) + name + BytesOfU32(|data|) + data + rest;
    var u := BytesOfU32(|data|) + data + rest;
    assert s[24..28] == BytesOfU32(|name|);
    ReadSlice(s, 24);
    CStringOfAll(name);
    assert s[28..] == name + u;
    assert s[28..][..|name|] == name && s[28..][|name|..] == u;
    assert u[0..4] == BytesOfU32(|data|);
    ReadSlice(u, 0);
    assert u[4..] == data + rest;
    assert TemplateNamed(name) != Ima;
  }

  ghost predicate Contains(s: seq<Byte>, part: seq<Byte>) {
    exists a: seq<Byte>, b: seq<Byte> :: s == a + part + b
  }

  /** Whatever is reported has its SHA-1 sum in the log. */
  lemma {:induction false} ReportedIsHashed(h: Foreign, s: seq<Byte>, stale: UInt32, aliased: bool, k: nat)
    requires k < |Parse(h, s, stale, aliased).entries|
    ensures Contains(s, h.sha1(Parse(h, s, stale, aliased).entries[k].data))
    decreases |s|
  {
    hide EntryRead, EntryName, GetTemplateData, ReadU32, Aliases, Contains;
    var r, aliased' := EntryRead(s, stale), Aliases(EntryName(s), aliased);
    if k == 0 {
      ContainsSlice(s, 4, 24);
    } else {
      ReportedIsHashed(h, r.rest, r.len, aliased', k - 1);
      RestIsTail(s, stale);
      TailContains(r.rest, s, h.sha1(Parse(h, r.rest, r.len, aliased').entries[k - 1].data));
    }
  }

  lemma ContainsSlice(s: seq<Byte>, i: nat, j: nat)
    requires i <= j <= |s|
    ensures Contains(s, s[i..j])
  {
    assert s == s[..i] + s[i..j] + s[j..];
  }

  predicate IsTail(t: seq<Byte>, s: seq<Byte>) {
    |t| <= |s| && t == s[|s| - |t|..]
  }

  lemma TailContains(t: seq<Byte>, s: seq<Byte>, part: seq<Byte>)
    requires IsTail(t, s) && Contains(t, part)
    ensures Contains(s, part)
  {
    var a, b :| t == a + part + b;
    assert s == s[..|s| - |t|] + a + part + b;
  }

  lemma TailOfTail(u: seq<Byte>, t: seq<Byte>, s: seq<Byte>)
    requires IsTail(u, t) && IsTail(t, s)
    ensures IsTail(u, s)
  {
  }

  lemma LeftIsTail(s: seq<Byte>, n: nat)
    ensures IsTail(Left(s, n), s)
  {
  }

  lemma RestIsTail(s: seq<Byte>, stale: UInt32)
    requires |s| >= 28
    ensures IsTail(EntryRead(s, stale).rest, s)
  {
    hide ReadU32, EntryName, TemplateNamed, IsTail;
    var u := Left(s[28..], ReadU32(s, 24));
    HeadIsDropped(s);
    LeftIsTail(s[28..], ReadU32(s, 24));
    TailOfTail(u, s[28..], s);
    DataIsDropped(TemplateNamed(EntryName(s)), u, stale);
    TailOfTail(EntryRead(s, stale).rest, u, s);
  }

  lemma HeadIsDropped(s: seq<Byte>)
    requires |s| >= 28
    ensures IsTail(s[28..], s)
  {
  }

  lemma DataIsDropped(t: Template, s: seq<Byte>, stale: UInt32)
    ensures IsTail(ReadTemplateData(t, s, stale).rest, s)
  {
    hide ReadU32, IsTail, Left;
    var n := if t == Ima then 20 else 4;
    LeftIsTail(s, n);
    var u := Left(s, n);
    if t == Ima {
      LeftIsTail(u, 4);
      TailOfTail(Left(u, 4), u, s);
      var v, len := Left(u, 4), if |u| >= 4 then ReadU32(u, 0) else 0;
      LeftIsTail(v, len);
      TailOfTail(Left(v, len), v, s);
    } else {
      var len := Wanted(if |s| >= 4 then ReadU32(s, 0) else stale);
      LeftIsTail(u, len);
      TailOfTail(Left(u, len), u, s);
    }
  }

  /** The data of an entry too long for the signed length is not read: if anything is reported for
      it, then zeros. */
  lemma LongEntryLost(h: Foreign, i: Item, rest: seq<Byte>, stale: UInt32, aliased: bool)
    requires ItemOk(i) && !Short(i) && |Frame(h, i)| + |rest| < 0x8000_0000_0000_0000
    ensures var p := Parse(h, Frame(h, i) + rest, stale, aliased);
            p.entries == [] || p.entries[0].data != DataOf(i)
  {
    hide ReadU32, Frame, Build, NameOf, TemplateNamed, CString, GetTemplateData;
    var s := Frame(h, i) + rest;
    FrameFields(h, i, rest);
    CStringOfAll(NameOf(i.t));
    NamesDiffer(i.t);
    assert EntryRead(s, stale).data == Zeros(|DataOf(i)|);
    FirstByte(i);
  }

  lemma FirstByte(i: Item)
    requires ItemOk(i)
    ensures DataOf(i) != Zeros(|DataOf(i)|)
  {
    hide Build;
    BuiltFields(i.t, i.digest, i.path);
    if DataOf(i)[0] == 0 {
      assert DataOf(i)[0] as int + 0x100 * DataOf(i)[1] as int + 0x1_0000 * DataOf(i)[2] as int
             + 0x100_0000 * DataOf(i)[3] as int == 40;
    }
  }

  /** The parser reports every entry of a framed log, in order and with the same template bytes, if
      and only if the template data of each entry is below 2 GiB. */
  lemma {:induction false} LogParses(h: Foreign, items: seq<Item>, stale: UInt32, aliased: bool)
    requires ItemsOk(items) && |Frames(h, items)| < 0x8000_0000_0000_0000
    ensures Parse(h, Frames(h, items), stale, aliased) == Parsed(Done, Reported(items)) <==> AllShort(items)
    decreases |items|
  {
    hide Frame, Parse, DataOf;
    if items == [] {
      NothingLeft(h, [], stale, aliased);
    } else {
      var i, more := items[0], items[1..];
      assert ItemOk(i) && items == [i] + more;
      var rest := Frames(h, more);
      if Short(i) {
        LogParses(h, more, |DataOf(i)|, aliased);
        ParseUnfolds(h, i, rest, stale, aliased);
        SameTail(Entry(DataOf(i), i.path), Parse(h, rest, |DataOf(i)|, aliased).entries, Reported(more));
      } else {
        LongEntryLost(h, i, rest, stale, aliased);
        assert Reported(items)[0].data == DataOf(i);
      }
    }
  }

  lemma SameTail(e: Entry, a: seq<Entry>, b: seq<Entry>)
    ensures [e] + a == [e] + b <==> a == b
  {
    assert ([e] + a)[1..] == a && ([e] + b)[1..] == b;
  }

  lemma NothingLeft(h: Foreign, s: seq<Byte>, stale: UInt32, aliased: bool)
    requires |s| < 28
    ensures Parse(h, s, stale, aliased) == Parsed(Done, [])
  {
  }
}
