/** The entry builder and the log parser in the form of the source: buffers, cursors and offsets. */
module ImaReader {
  import opened Words
  import opened Buffers
  import opened ImaFormat
  import opened Ima
  import opened ImaLog

  /** calculate_ima_entry: the template that is hashed, or None for an unsupported template name. */
  method CalculateImaEntry(name: seq<Byte>, hash: seq<Byte>, path: seq<Byte>) returns (template: Option<seq<Byte>>)
    requires |hash| == 32 && PathOk(TemplateNamed(name), path)
    ensures var t := TemplateNamed(name);
            template == if t == ImaNg || t == ImaSig then Some(Build(t, hash, path)) else None
  {
    hide BytesOfU32, NameOf;
    var digestLen: UInt32 := 40;
    var pathLen: UInt32 := |path| + 1;
    var length: UInt32;
    NamesDiffer(ImaSig);
    NamesDiffer(ImaNg);
    if name == NameOf(ImaSig) {
      length := 4 + digestLen + 4 + pathLen + 4;
    } else if name == NameOf(ImaNg) {
      length := 4 + digestLen + 4 + pathLen;
    } else {
      return None;
    }
    ghost var t := TemplateNamed(name);
    var buffer := new Byte[length](_ => 0);
    ghost var zero := buffer[..];
    var cursor: nat := 0;
    Copy(buffer, cursor, BytesOfU32(digestLen));
    cursor := cursor + 4;
    assert buffer[..cursor] == BytesOfU32(40);
    Copy(buffer, cursor, HashAlgo());
    cursor := cursor + 8;
    assert buffer[..cursor] == BytesOfU32(40) + HashAlgo();
    Copy(buffer, cursor, hash);
    cursor := cursor + 32;
    assert buffer[..cursor] == BytesOfU32(40) + HashAlgo() + hash;
    Copy(buffer, cursor, BytesOfU32(pathLen));
    cursor := cursor + 4;
    assert buffer[..cursor] == BytesOfU32(40) + HashAlgo() + hash + BytesOfU32(pathLen);
    Copy(buffer, cursor, path + [0]);
    if name == NameOf(ImaSig) {
      cursor := cursor + |path| + 1;
      assert buffer[..cursor] == BytesOfU32(40) + HashAlgo() + hash + BytesOfU32(pathLen) + path + [0];
      Copy(buffer, cursor, BytesOfU32(0));
    }
    assert buffer[..] == Build(t, hash, path);
    template := Some(buffer[..]);
  }

  /** A buffer that is read from the front: ptr and remain of the source. */
  class BufReader {
    const buf: seq<Byte>
    var ptr: nat
    var remain: nat

    ghost predicate Valid()
      reads this
    {
      ptr + remain == |buf| < 0x8000_0000_0000_0000
    }

    function Rest(): (s: seq<Byte>)
      requires Valid()
      reads this
      ensures |s| == remain
    {
      buf[ptr..]
    }

    constructor (buf: seq<Byte>)
      requires |buf| < 0x8000_0000_0000_0000
      ensures Valid() && Rest() == buf
    {
      this.buf, ptr, remain := buf, 0, |buf|;
    }

    /** buf_read: all or nothing. */
    method BufRead(size: UInt64) returns (dest: Option<seq<Byte>>)
      requires Valid()
      modifies this
      ensures Valid() && dest == Taken(old(Rest()), size) && Rest() == Left(old(Rest()), size)
    {
      if size > remain {
        return None;
      }
      assert buf[ptr..][..size] == buf[ptr..ptr + size];
      assert buf[ptr..][size..] == buf[ptr + size..];
      dest := Some(buf[ptr..ptr + size]);
      ptr := ptr + size;
      remain := remain - size;
    }
  }

  /** The body of get_template_data's loop: the offset and the digest after a field, or its result. */
  method VisitField(env: Env, data: seq<Byte>, f: seq<Byte>, cur: Cursor) returns (step: Step)
    requires |data| < 0x1_0000_0000
    ensures step == FieldStep(env, data, f, cur)
  {
    hide CString, ReadU32, KindOf, Starts, NameOf;
    FieldsDiffer(f);
    var offset, len: UInt32 := cur.offset, 0;
    if env.name == NameOf(Ima) && f == D() {
      len := 20;
    } else if env.name == NameOf(Ima) && f == N() {
      if !HasNul(data, offset) {
        return Stop(Overrun);
      }
      len := |CString(data[offset..])|;
    } else {
      if !Within(data, offset, 4) {
        return Stop(Overrun);
      }
      len := ReadU32(data, offset);
      offset := offset + 4;
    }
    var kind := KindOf(env.name);
    var digest := if kind == ModsigKind then Starts(f, DModsig()) else kind != NoKind && Starts(f, DNg());
    if digest {
      if !HasNul(data, offset) {
        return Stop(Overrun);
      }
      var algoLen := |CString(data[offset..])| + 1;
      return Go(Cursor(Advanced(offset, len), offset + algoLen, (len - algoLen) % 0x1_0000_0000));
    }
    if kind == SigKind && Starts(f, Sig()) {
      if cur.digestLen > 0 && cur.digestAt + cur.digestLen > |data| {
        return Stop(Overrun);
      }
      if |data| <= offset {
        return Go(cur.(offset := offset));
      }
      if !Within(data, offset, 1) {
        return Stop(Overrun);
      }
      if data[offset] != 3 {
        return Go(cur.(offset := offset));
      }
      if len < 9 || (len > 9 && !Within(data, offset, len)) {
        return Stop(Overrun);
      }
    } else if kind == ModsigKind && f == Modsig() {
      if !Within(data, offset, len) {
        return Stop(Overrun);
      }
      if !env.modsig(data[offset..offset + len]) {
        return Go(cur.(offset := offset));
      }
    } else if kind != NoKind && Starts(f, NNg()) {
      if !Within(data, offset, len) {
        return Stop(Overrun);
      }
      return Stop(Path(CString(data[offset..offset + len])));
    }
    return Go(cur.(offset := Advanced(offset, len)));
  }

  /** get_template_data: looks up the format, which may be the name itself, and walks its fields. */
  method FindPath(env: Env, aliased: bool, data: seq<Byte>) returns (found: Found, aliased': bool)
    requires |data| < 0x1_0000_0000
    ensures found == GetTemplateData(env, aliased, data) && aliased' == Aliases(env.name, aliased)
  {
    hide Walk, FieldStep, Split, TemplateNamed, Join;
    aliased' := aliased || TemplateNamed(env.name) == Unknown;
    var fields := Split(Format(env.name, aliased));
    var i, cur := 0, Cursor(0, 0, 0);
    while i < |fields|
      invariant 0 <= i <= |fields|
      invariant Walk(env, data, fields[i..], cur) == GetTemplateData(env, aliased, data)
    {
      assert fields[i..] == [fields[i]] + fields[i + 1..];
      WalkStep(env, data, fields[i], fields[i + 1..], cur);
      var step := VisitField(env, data, fields[i], cur);
      if step.Stop? {
        return step.found, aliased';
      }
      cur := step.cursor;
      i := i + 1;
    }
    WalkOut(env, data, cur);
    assert fields[i..] == [];
    return Nothing, aliased';
  }

  lemma WalkOut(env: Env, data: seq<Byte>, cur: Cursor)
    requires |data| < 0x1_0000_0000
    ensures Walk(env, data, [], cur) == Nothing
  {
  }

  /** read_template_data; `len` is the template length of the previous entry and of this one. */
  method ReadTemplate(t: Template, reader: BufReader, stale: UInt32)
    returns (len: UInt32, data: seq<Byte>, overrun: bool)
    requires reader.Valid()
    modifies reader
    ensures reader.Valid()
    ensures ReadTemplateData(t, old(reader.Rest()), stale) == Read(len, data, reader.Rest(), overrun)
  {
    hide ReadU32;
    len, overrun := stale, false;
    if t != Ima {
      var word := reader.BufRead(4);
      WordTaken(old(reader.Rest()));
      if word.Some? {
        len := ReadU32(word.value, 0);
      }
      var dest := reader.BufRead(Wanted(len));
      data := Or(dest, Zeros(len));
    } else {
      len := 276;
      var digest := reader.BufRead(20);
      WordTaken(reader.Rest());
      var word := reader.BufRead(4);
      var nameLen: UInt32 := if word.Some? then ReadU32(word.value, 0) else 0;
      var dest := reader.BufRead(nameLen);
      var name := Or(dest, []);
      if |name| > 256 {
        return len, [], true;
      }
      data := Or(digest, Zeros(20)) + name + Zeros(256 - |name|);
    }
  }

  lemma WordTaken(s: seq<Byte>)
    ensures |s| >= 4 ==> ReadU32(s[..4], 0) == ReadU32(s, 0)
  {
  }

  /** ima_parse_binary_runtime_measurements. `stale` is what the length variable first holds. */
  method ParseMeasurements(h: Foreign, buf: seq<Byte>, stale: UInt32) returns (parsed: Parsed)
    requires |buf| < 0x8000_0000_0000_0000
    ensures parsed == Parse(h, buf, stale, false)
  {
    hide Parse, ReadTemplateData, ReadU32, GetTemplateData, TemplateNamed, CString;
    var reader := new BufReader(buf);
    var entries, len: UInt32, aliased := [], stale, false;
    var header := reader.BufRead(28);
    ghost var at := buf;
    while header.Some?
      invariant reader.Valid() && header == Taken(at, 28) && reader.Rest() == Left(at, 28)
      invariant Parse(h, buf, stale, false) == Prefixed(entries, Parse(h, at, len, aliased))
      decreases reader.remain, if header.Some? then 1 else 0
    {
      ParseNext(h, at, len, aliased);
      var digest, nameLen := header.value[4..24], ReadU32(header.value, 24);
      HeaderFields(at);
      if nameLen > 255 {
        return Parsed(Failed, entries);
      }
      var nameBytes := reader.BufRead(nameLen);
      var name := CString(Or(nameBytes, []));
      var data, overrun;
      ghost var before := len;
      len, data, overrun := ReadTemplate(TemplateNamed(name), reader, len);
      assert EntryRead(at, before) == Read(len, data, reader.Rest(), overrun);
      if overrun {
        return Parsed(Overran, entries);
      }
      if h.sha1(data) != digest {
        return Parsed(Failed, entries);
      }
      var found;
      found, aliased := FindPath(Env(name, h.modsig), aliased, data);
      match found {
        case Overrun => return Parsed(Overran, entries);
        case Nothing => return Parsed(Failed, entries);
        case Path(path) =>
          PrefixedTwice(entries, Entry(data, path), Parse(h, reader.Rest(), len, aliased));
          entries := entries + [Entry(data, path)];
      }
      at := reader.Rest();
      header := reader.BufRead(28);
    }
    NothingLeft(h, at, len, aliased);
    return Parsed(Done, entries);
  }

  function Prefixed(before: seq<Entry>, p: Parsed): Parsed {
    Parsed(p.status, before + p.entries)
  }

  lemma PrefixedTwice(before: seq<Entry>, e: Entry, p: Parsed)
    ensures Prefixed(before, Parsed(p.status, [e] + p.entries)) == Prefixed(before + [e], p)
  {
  }

  lemma HeaderFields(s: seq<Byte>)
    requires |s| >= 28
    ensures s[..28][4..24] == s[4..24] && ReadU32(s[..28], 24) == ReadU32(s, 24)
  {
  }

  lemma ParseNext(h: Foreign, s: seq<Byte>, stale: UInt32, aliased: bool)
    requires |s| >= 28
    ensures Parse(h, s, stale, aliased) ==
            if ReadU32(s, 24) > 255 then Parsed(Failed, [])
            else
              var r := EntryRead(s, stale);
              if r.overrun then Parsed(Overran, [])
              else if h.sha1(r.data) != s[4..24] then Parsed(Failed, [])
              else
                var name := EntryName(s);
                var found := GetTemplateData(Env(name, h.modsig), aliased, r.data);
                if found.Overrun? then Parsed(Overran, [])
                else if found.Nothing? then Parsed(Failed, [])
                else
                  var more := Parse(h, r.rest, r.len, Aliases(name, aliased));
                  Parsed(more.status, [Entry(r.data, found.path)] + more.entries)
  {
    hide GetTemplateData, EntryName, EntryRead, Aliases, ReadU32;
  }
}
