/** The path that an entry yields, field by field. */
module ImaPaths {
  import opened Words
  import opened ImaFormat

  /** A field as it is logged: its length and its contents. */
  function Field(b: seq<Byte>): (s: seq<Byte>)
    requires |b| < 0x1_0000_0000
    ensures |s| == 4 + |b|
  {
    BytesOfU32(|b|) + b
  }

  lemma FieldThere(before: seq<Byte>, b: seq<Byte>, rest: seq<Byte>)
    requires |before| + 4 + |b| < 0x8000_0000
    ensures var data, at := before + Field(b) + rest, |before|;
            && Within(data, at, 4) && ReadU32(data, at) == |b| && Within(data, at + 4, |b|)
            && data[at + 4..at + 4 + |b|] == b && data[at + 4..] == b + rest
  {
    hide ReadU32, BytesOfU32;
    var data, at := before + Field(b) + rest, |before|;
    assert data[at..at + 4] == BytesOfU32(|b|);
    ReadSlice(data, at);
  }

  /** A walk over a field that is not of the plain "ima" template. */
  lemma FieldWalk(env: Env, before: seq<Byte>, b: seq<Byte>, rest: seq<Byte>, f: seq<Byte>, fields: seq<seq<Byte>>,
                  cur: Cursor)
    requires |before| + 4 + |b| < 0x8000_0000 && |before| + 4 + |b| + |rest| < 0x1_0000_0000
    requires KindOf(env.name) != NoKind && cur.offset == |before|
    ensures var data, start := before + Field(b) + rest, |before| + 4;
            && FieldAt(env.name, data, f, |before|) == Some((|b|, start))
            && Walk(env, data, [f] + fields, cur)
               == var step := FieldStep(env, data, f, cur);
                  if step.Stop? then step.found else Walk(env, data, fields, step.cursor)
  {
    hide FieldStep, Field, ReadU32;
    var data := before + Field(b) + rest;
    NotIma(env.name);
    FieldThere(before, b, rest);
    LengthField(env.name, data, f, |before|);
    WalkStep(env, data, f, fields, cur);
  }

  lemma NamesOf()
    ensures Ascii("ima-ng") == NameOf(ImaNg) && Ascii("ima-sig") == NameOf(ImaSig)
    ensures Ascii("ima-modsig") == NameOf(ImaModsig)
    ensures KindOf(NameOf(ImaNg)) == NgKind && KindOf(NameOf(ImaSig)) == SigKind
    ensures KindOf(NameOf(ImaModsig)) == ModsigKind
  {
    assert NameOf(ImaNg)[..6] == NameOf(ImaNg) && NameOf(ImaSig)[..7] == NameOf(ImaSig);
    OddFields();
  }

  /** An entry of one of the three templates with a file name yields the name in its second field, up to
      the first NUL. Its first field is a digest of any algorithm, whose name ends with a NUL. Only an
      ima-modsig entry behind an unknown template name does not yield a path. */
  lemma EntryPath(env: Env, aliased: bool, digest: seq<Byte>, name: seq<Byte>, tail: seq<Byte>)
    requires env.name in {Ascii("ima-ng"), Ascii("ima-sig"), Ascii("ima-modsig")}
    requires 8 + |digest| + |name| < 0x8000_0000 && 8 + |digest| + |name| + |tail| < 0x1_0000_0000
    requires env.name == Ascii("ima-modsig") || 0 in digest
    ensures var found := GetTemplateData(env, aliased, Field(digest) + Field(name) + tail);
            if env.name == Ascii("ima-modsig") && aliased then !found.Path? else found == Path(CString(name))
  {
    hide Ascii, NameOf, KindOf, GetTemplateData, Field, CString;
    NamesOf();
    if env.name == NameOf(ImaNg) {
      KnownPath(env, ImaNg, aliased, digest, name, tail);
    } else if env.name == NameOf(ImaSig) {
      KnownPath(env, ImaSig, aliased, digest, name, tail);
    } else if aliased {
      NoPathBehind(env, Field(digest) + Field(name) + tail);
    } else {
      KnownPath(env, ImaModsig, aliased, digest, name, tail);
    }
  }

  lemma KnownPath(env: Env, t: Template, aliased: bool, digest: seq<Byte>, name: seq<Byte>, tail: seq<Byte>)
    requires (t == ImaNg || t == ImaSig || t == ImaModsig) && env.name == NameOf(t) && KindOf(env.name) != NoKind
    requires 8 + |digest| + |name| < 0x8000_0000 && 8 + |digest| + |name| + |tail| < 0x1_0000_0000
    requires if t == ImaModsig then KindOf(env.name) == ModsigKind && !aliased else 0 in digest
    ensures GetTemplateData(env, aliased, Field(digest) + Field(name) + tail) == Path(CString(name))
  {
    hide Split, Join, Field, CString, Walk, NameOf, KindOf, Format, KnownFields, DNg, NNg;
    KnownSplit(t, aliased);
    KnownFieldsStart(t);
    DigestThenName(env, digest, name, tail, KnownFields(t)[2..]);
  }

  lemma NoPathBehind(env: Env, data: seq<Byte>)
    requires env.name == NameOf(ImaModsig) && |data| < 0x1_0000_0000
    ensures !GetTemplateData(env, true, data).Path?
  {
    hide Walk, Split, Format, NameOf, KindOf, Starts;
    ModsigIsOneField();
    if GetTemplateData(env, true, data).Path? {
      PathNeedsField(env, data, Split(Format(env.name, true)), Cursor(0, 0, 0));
    }
  }

  lemma DigestPassed(env: Env, data: seq<Byte>, len: UInt32, start: UInt32, cur: Cursor)
    requires KindOf(env.name) != NoKind && |data| < 0x1_0000_0000 && start + len < 0x1_0000_0000
    requires FieldAt(env.name, data, DNg(), cur.offset) == Some((len, start))
    requires KindOf(env.name) == ModsigKind || HasNul(data, start)
    ensures FieldStep(env, data, DNg(), cur).Go? && FieldStep(env, data, DNg(), cur).cursor.offset == start + len
  {
    hide KindOf, Starts, FieldAt, HasNul, CString;
    StartsItself(DNg());
  }

  lemma NameFound(env: Env, data: seq<Byte>, len: UInt32, start: UInt32, cur: Cursor)
    requires KindOf(env.name) != NoKind && |data| < 0x1_0000_0000 && Within(data, start, len)
    requires FieldAt(env.name, data, NNg(), cur.offset) == Some((len, start))
    ensures FieldStep(env, data, NNg(), cur) == Stop(Path(CString(data[start..start + len])))
  {
    hide KindOf, Starts, FieldAt, CString, SignatureStep, ModsigStep, DigestStep;
    StartsItself(NNg());
    FieldsDiffer(NNg());
  }

  lemma DigestThenName(env: Env, digest: seq<Byte>, name: seq<Byte>, tail: seq<Byte>, fields: seq<seq<Byte>>)
    requires KindOf(env.name) != NoKind
    requires 8 + |digest| + |name| < 0x8000_0000 && 8 + |digest| + |name| + |tail| < 0x1_0000_0000
    requires KindOf(env.name) == ModsigKind || 0 in digest
    ensures Walk(env, Field(digest) + Field(name) + tail, [DNg()] + ([NNg()] + fields), Cursor(0, 0, 0))
            == Path(CString(name))
  {
    hide KindOf, Field, CString, Walk, FieldAt, FieldStep, HasNul, ReadU32;
    var data, cur := Field(digest) + Field(name) + tail, Cursor(0, 0, 0);
    assert [] + Field(digest) + (Field(name) + tail) == data;
    FieldThere([], digest, Field(name) + tail);
    FieldWalk(env, [], digest, Field(name) + tail, DNg(), [NNg()] + fields, cur);
    if KindOf(env.name) != ModsigKind {
      NulInField(data, 4, digest);
    }
    DigestPassed(env, data, |digest|, 4, cur);
    var next := FieldStep(env, data, DNg(), cur).cursor;
    FieldThere(Field(digest), name, tail);
    FieldWalk(env, Field(digest), name, tail, NNg(), fields, next);
    NameFound(env, data, |name|, 8 + |digest|, next);
  }

  lemma NulInField(data: seq<Byte>, start: UInt32, b: seq<Byte>)
    requires start + |b| <= |data| && start < 0x8000_0000 && data[start..start + |b|] == b && 0 in b
    ensures HasNul(data, start)
  {
    hide HasNul;
    var i :| 0 <= i < |b| && b[i] == 0;
    assert data[start..start + |b|][i] == data[start + i];
    NulThere(data, start, start + i);
  }

  lemma StartsItself(f: seq<Byte>)
    ensures Starts(f, f)
  {
    assert f[..|f|] == f;
  }

  // ---- A name that is its own field list ----

  lemma OddSplit()
    ensures var name := Ascii("ima-sig|sig|n-ng");
            && Split(Format(name, false)) == [Ascii("ima-sig"), Sig(), NNg()]
            && Format(name, true) == Format(name, false) && KindOf(name) == SigKind
  {
    hide Split;
    var fields, name := [Ascii("ima-sig"), Sig(), NNg()], Ascii("ima-sig|sig|n-ng");
    SplitJoins(fields);
    assert fields[1..] == [Sig(), NNg()] && fields[1..][1..] == [NNg()];
    assert Join(fields) == Ascii("ima-sig") + [BAR] + (Sig() + [BAR] + NNg()) == name;
    assert name[..7] == Ascii("ima-sig");
  }

  /** The bytes from where a name field is looked for: the name in it, or a read behind the data. */
  function NameIn(seen: seq<Byte>): Found {
    if |seen| < 4 || 4 + ReadU32(seen, 0) > |seen| then Overrun else Path(CString(seen[4..4 + ReadU32(seen, 0)]))
  }

  /** With the signature in front of the name, a signature of version 3 is skipped when it has its nine
      bytes of header; for any other contents the name is looked for in the place of the contents. */
  lemma SignatureFirst(env: Env, aliased: bool, first: seq<Byte>, signature: seq<Byte>, rest: seq<Byte>)
    requires env.name == Ascii("ima-sig|sig|n-ng") && signature != []
    requires 8 + |first| + |signature| + |rest| < 0x8000_0000
    ensures GetTemplateData(env, aliased, Field(first) + Field(signature) + rest)
            == if signature[0] != 3 then NameIn(signature + rest)
               else if |signature| < 9 then Overrun
               else NameIn(rest)
  {
    hide Ascii, Split, Join, Field, CString, Walk, KindOf, FieldStep, Format, NameIn;
    OddSplit();
    var data, cur := Field(first) + Field(signature) + rest, Cursor(0, 0, 0);
    var fields := [Sig()] + [NNg()];
    assert [Ascii("ima-sig"), Sig(), NNg()] == [Ascii("ima-sig")] + fields;
    assert [] + Field(first) + (Field(signature) + rest) == data;
    FieldWalk(env, [], first, Field(signature) + rest, Ascii("ima-sig"), fields, cur);
    NameSkipped(env, data, |first|, 4, cur);
    var cur1 := FieldStep(env, data, Ascii("ima-sig"), cur).cursor;
    FieldThere(Field(first), signature, rest);
    FieldWalk(env, Field(first), signature, rest, Sig(), [NNg()], cur1);
    SignatureStepped(env, data, signature, 8 + |first|, cur1);
    var step := FieldStep(env, data, Sig(), cur1);
    if step.Go? {
      assert data[8 + |first|..] == signature + rest;
      assert (signature + rest)[|signature|..] == rest;
      assert data[8 + |first| + |signature|..] == rest;
      LastName(env, data, step.cursor);
    }
  }

  lemma NameSkipped(env: Env, data: seq<Byte>, len: UInt32, start: UInt32, cur: Cursor)
    requires KindOf(env.name) == SigKind && |data| < 0x1_0000_0000 && start + len < 0x1_0000_0000
    requires FieldAt(env.name, data, Ascii("ima-sig"), cur.offset) == Some((len, start))
    ensures FieldStep(env, data, Ascii("ima-sig"), cur) == Go(cur.(offset := start + len))
  {
    hide KindOf, FieldAt;
    var f := Ascii("ima-sig");
    assert f[..4][0] == f[..3][0] == 0x69;
  }

  lemma SignatureStepped(env: Env, data: seq<Byte>, signature: seq<Byte>, start: UInt32, cur: Cursor)
    requires KindOf(env.name) == SigKind && signature != [] && cur.digestLen == 0
    requires |data| < 0x8000_0000 && start + |signature| <= |data|
    requires data[start..start + |signature|] == signature
    requires FieldAt(env.name, data, Sig(), cur.offset) == Some((|signature|, start))
    ensures FieldStep(env, data, Sig(), cur)
            == if signature[0] != 3 then Go(cur.(offset := start))
               else if |signature| < 9 then Stop(Overrun)
               else Go(cur.(offset := start + |signature|))
  {
    hide KindOf, FieldAt, Starts;
    StartsItself(Sig());
    FieldsDiffer(DNg());
    SigIsNoDigest();
    assert data[start..start + |signature|][0] == data[start];
  }

  lemma SigIsNoDigest()
    ensures !Starts(Sig(), DNg())
  {
  }

  lemma LastName(env: Env, data: seq<Byte>, cur: Cursor)
    requires KindOf(env.name) != NoKind && |data| < 0x8000_0000 && cur.offset <= |data|
    ensures Walk(env, data, [NNg()], cur) == NameIn(data[cur.offset..])
  {
    hide KindOf, CString, ReadU32, FieldStep;
    var seen, at := data[cur.offset..], cur.offset;
    assert [NNg()] + [] == [NNg()];
    WalkStep(env, data, NNg(), [], cur);
    NotIma(env.name);
    if |seen| >= 4 {
      LengthField(env.name, data, NNg(), at);
      assert data[at..at + 4] == seen[0..4];
      ReadSlice(data, at);
      ReadSlice(seen, 0);
      var len := ReadU32(data, at);
      if at + 4 + len <= |data| {
        NameFound(env, data, len, at + 4, cur);
        assert data[at + 4..at + 4 + len] == seen[4..4 + len];
      } else {
        NameBeyond(env, data, len, at + 4, cur);
      }
    } else {
      NoLength(env, data, cur);
    }
  }

  lemma NameBeyond(env: Env, data: seq<Byte>, len: UInt32, start: UInt32, cur: Cursor)
    requires KindOf(env.name) != NoKind && |data| < 0x1_0000_0000 && !Within(data, start, len)
    requires FieldAt(env.name, data, NNg(), cur.offset) == Some((len, start))
    ensures FieldStep(env, data, NNg(), cur) == Stop(Overrun)
  {
    hide KindOf, Starts, FieldAt, CString, SignatureStep, ModsigStep, DigestStep;
    StartsItself(NNg());
    FieldsDiffer(NNg());
  }

  lemma NoLength(env: Env, data: seq<Byte>, cur: Cursor)
    requires env.name != NameOf(Ima) && |data| < 0x1_0000_0000 && !Within(data, cur.offset, 4)
    ensures FieldStep(env, data, NNg(), cur) == Stop(Overrun)
  {
    hide KindOf, Starts, CString;
  }

  lemma OddModsigSplit()
    ensures var name := Ascii("ima-modsig|modsig|n-ng");
            && Split(Format(name, false)) == [Ascii("ima-modsig"), Modsig(), NNg()]
            && Format(name, true) == Format(name, false) && KindOf(name) == ModsigKind
  {
    hide Split, Ascii, Join, Starts;
    var fields, name := [Ascii("ima-modsig"), Modsig(), NNg()], Ascii("ima-modsig|modsig|n-ng");
    OddModsigJoin();
    SplitJoins(fields);
    OddModsigKind();
  }

  lemma OddModsigJoin()
    ensures Join([Ascii("ima-modsig"), Modsig(), NNg()]) == Ascii("ima-modsig|modsig|n-ng")
    ensures BarFree(Ascii("ima-modsig"))
  {
    var fields := [Ascii("ima-modsig"), Modsig(), NNg()];
    assert fields[1..] == [Modsig(), NNg()] && fields[1..][1..] == [NNg()];
    assert Join(fields) == Ascii("ima-modsig") + [BAR] + (Modsig() + [BAR] + NNg());
  }

  lemma OddModsigKind()
    ensures var name := Ascii("ima-modsig|modsig|n-ng");
            Starts(name, NameOf(ImaModsig)) && !Starts(name, NameOf(ImaSig))
  {
    var name := Ascii("ima-modsig|modsig|n-ng");
    assert name[..10] == Ascii("ima-modsig");
    assert name[..7][4] == 0x6D && NameOf(ImaSig)[4] == 0x73;
  }

  /** With the module signature in front of the name, it is skipped when it can be parsed; otherwise the
      name is looked for in its place. */
  lemma ModsigFirst(env: Env, aliased: bool, first: seq<Byte>, signature: seq<Byte>, rest: seq<Byte>)
    requires env.name == Ascii("ima-modsig|modsig|n-ng")
    requires 8 + |first| + |signature| + |rest| < 0x8000_0000
    ensures GetTemplateData(env, aliased, Field(first) + Field(signature) + rest)
            == if env.modsig(signature) then NameIn(rest) else NameIn(signature + rest)
  {
    hide Ascii, Split, Join, Field, CString, Walk, KindOf, FieldStep, Format, NameIn;
    OddModsigSplit();
    var data, cur := Field(first) + Field(signature) + rest, Cursor(0, 0, 0);
    var fields := [Modsig()] + [NNg()];
    assert [Ascii("ima-modsig"), Modsig(), NNg()] == [Ascii("ima-modsig")] + fields;
    assert [] + Field(first) + (Field(signature) + rest) == data;
    FieldWalk(env, [], first, Field(signature) + rest, Ascii("ima-modsig"), fields, cur);
    ModsigNameSkipped(env, data, |first|, 4, cur);
    var cur1 := FieldStep(env, data, Ascii("ima-modsig"), cur).cursor;
    FieldThere(Field(first), signature, rest);
    FieldWalk(env, Field(first), signature, rest, Modsig(), [NNg()], cur1);
    ModsigStepped(env, data, signature, 8 + |first|, cur1);
    assert data[8 + |first|..] == signature + rest;
    assert data[8 + |first| + |signature|..] == rest;
    LastName(env, data, FieldStep(env, data, Modsig(), cur1).cursor);
  }

  lemma ModsigNameSkipped(env: Env, data: seq<Byte>, len: UInt32, start: UInt32, cur: Cursor)
    requires KindOf(env.name) == ModsigKind && |data| < 0x1_0000_0000 && start + len < 0x1_0000_0000
    requires FieldAt(env.name, data, Ascii("ima-modsig"), cur.offset) == Some((len, start))
    ensures FieldStep(env, data, Ascii("ima-modsig"), cur) == Go(cur.(offset := start + len))
  {
    hide KindOf, FieldAt;
    var f := Ascii("ima-modsig");
    assert f[..4][0] == f[..8][0] == 0x69;
  }

  lemma ModsigStepped(env: Env, data: seq<Byte>, signature: seq<Byte>, start: UInt32, cur: Cursor)
    requires KindOf(env.name) == ModsigKind && |data| < 0x8000_0000 && start + |signature| <= |data|
    requires data[start..start + |signature|] == signature
    requires FieldAt(env.name, data, Modsig(), cur.offset) == Some((|signature|, start))
    ensures FieldStep(env, data, Modsig(), cur)
            == Go(cur.(offset := if env.modsig(signature) then start + |signature| else start))
  {
    hide KindOf, FieldAt, Starts;
    ModsigIsNoDigest();
  }

  lemma ModsigIsNoDigest()
    ensures !Starts(Modsig(), DNg()) && !Starts(Modsig(), DModsig())
  {
    assert Modsig()[..4][0] == 0x6D;
  }
}
