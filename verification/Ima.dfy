/** IMA template entries: the builder of calculate-ima-pcr, and the parser of parse-ima-pcr undoing it. */
module Ima {
  import opened Words
  import opened ImaFormat

  // ---- Building an entry ----

  function HashAlgo(): (b: seq<Byte>)
    ensures |b| == 8 && b == Ascii("sha256:") + [0]
  {
    [0x73, 0x68, 0x61, 0x32, 0x35, 0x36, 0x3A, 0]
  }

  /** Paths for which the 32-bit length of the template does not wrap around. */
  predicate PathOk(t: Template, path: seq<Byte>) {
    NulFree(path) && 49 + |path| + (if t == ImaSig then 4 else 0) < 0x1_0000_0000
  }

  /** The template data that calculate_ima_entry hashes. */
  function Build(t: Template, digest: seq<Byte>, path: seq<Byte>): (data: seq<Byte>)
    requires (t == ImaNg || t == ImaSig) && |digest| == 32 && PathOk(t, path)
    ensures |data| == 49 + |path| + if t == ImaSig then 4 else 0
  {
    BytesOfU32(40) + HashAlgo() + digest + BytesOfU32(|path| + 1) + path + [0]
      + if t == ImaSig then BytesOfU32(0) else []
  }

  // ---- What the parser finds ----

  /** The first two fields of a template with a digest field of 40 bytes that holds a NUL. */
  lemma TwoFields(env: Env, t: Template, aliased: bool, data: seq<Byte>)
    requires (t == ImaNg || t == ImaSig) && env.name == NameOf(t) && 48 <= |data| < 0x1_0000_0000
    requires ReadU32(data, 0) == 40 && data[11] == 0
    ensures var len := ReadU32(data, 44);
            GetTemplateData(env, aliased, data) == if 48 + len <= |data| then Path(CString(data[48..48 + len]))
                else Overrun
  {
    hide ReadU32, Walk, HasNul, FieldAt, CString, Ascii, Split, Join, SignatureStep, ModsigStep, KnownFields;
    KnownSplit(t, aliased);
    KnownFieldsStart(t);
    var rest := KnownFields(t)[2..];
    KnownKinds(t);
    FieldsDiffer(DNg());
    FieldsDiffer(NNg());
    LengthField(env.name, data, DNg(), 0);
    NulThere(data, 4, 11);
    WalkStep(env, data, DNg(), [NNg()] + rest, Cursor(0, 0, 0));
    var cur := FieldStep(env, data, DNg(), Cursor(0, 0, 0)).cursor;
    LengthField(env.name, data, NNg(), 44);
    WalkStep(env, data, NNg(), rest, cur);
  }

  lemma KnownKinds(t: Template)
    requires t == ImaNg || t == ImaSig
    ensures NameOf(t) != NameOf(Ima)
    ensures KindOf(NameOf(t)) == if t == ImaNg then NgKind else SigKind
  {
    assert NameOf(t)[..|NameOf(t)|] == NameOf(t);
  }

  lemma BuiltFields(t: Template, digest: seq<Byte>, path: seq<Byte>)
    requires (t == ImaNg || t == ImaSig) && |digest| == 32 && PathOk(t, path)
    ensures var data := Build(t, digest, path);
            && ReadU32(data, 0) == 40 && data[4..12] == HashAlgo() && data[12..44] == digest
            && ReadU32(data, 44) == |path| + 1 && data[48..49 + |path|] == path + [0]
            && (t == ImaSig ==> data[49 + |path|..] == BytesOfU32(0))
  {
    hide BytesOfU32, ReadU32;
    var data := Build(t, digest, path);
    assert data[0..4] == BytesOfU32(40);
    assert data[44..48] == BytesOfU32(|path| + 1);
    ReadSlice(data, 0);
    ReadSlice(data, 44);
  }

  /** The parser finds exactly the path that the entry was built from. */
  lemma ParseUndoesBuild(env: Env, t: Template, aliased: bool, digest: seq<Byte>, path: seq<Byte>)
    requires (t == ImaNg || t == ImaSig) && env.name == NameOf(t) && |digest| == 32 && PathOk(t, path)
    ensures GetTemplateData(env, aliased, Build(t, digest, path)) == Path(path)
  {
    hide ReadU32, BytesOfU32, GetTemplateData, Build;
    var data := Build(t, digest, path);
    BuiltFields(t, digest, path);
    assert data[11] == data[4..12][7] == 0;
    TwoFields(env, t, aliased, data);
    CStringOf(path, []);
    assert path + [0] + [] == path + [0];
  }

  /** Template data in the form the builder writes, whatever its digest and path. */
  predicate Canonical(t: Template, data: seq<Byte>) {
    && 49 <= |data| < 0x1_0000_0000
    && ReadU32(data, 0) == 40 && data[4..12] == HashAlgo()
    && var n := ReadU32(data, 44);
    && n > 0 && |data| == 48 + n + (if t == ImaSig then 4 else 0)
    && NulFree(data[48..47 + n]) && data[47 + n] == 0
    && (t == ImaSig ==> data[48 + n..] == BytesOfU32(0))
  }

  /** The builder rebuilds every such template from its digest and the path the parser finds, and
      builds nothing else. */
  lemma BuildUndoesParse(env: Env, t: Template, aliased: bool, data: seq<Byte>)
    requires (t == ImaNg || t == ImaSig) && env.name == NameOf(t)
    ensures Canonical(t, data) <==>
            exists digest: seq<Byte>, path ::
              |digest| == 32 && PathOk(t, path) && |data| < 0x1_0000_0000 && data == Build(t, digest, path)
    ensures Canonical(t, data) ==>
              GetTemplateData(env, aliased, data).Path? && PathOk(t, GetTemplateData(env, aliased, data).path)
              && data == Build(t, data[12..44], GetTemplateData(env, aliased, data).path)
  {
    hide ReadU32, BytesOfU32, Build, GetTemplateData;
    if Canonical(t, data) {
      Rebuild(env, t, aliased, data);
    }
    forall digest: seq<Byte>, path |
      |digest| == 32 && PathOk(t, path) && |data| < 0x1_0000_0000 && data == Build(t, digest, path)
      ensures Canonical(t, data)
    {
      BuiltFields(t, digest, path);
      assert path == data[48..48 + |path|] by {
        assert data[48..49 + |path|][..|path|] == data[48..48 + |path|];
      }
      assert data[48 + |path|] == data[48..49 + |path|][|path|] == 0;
    }
  }

  lemma Rebuild(env: Env, t: Template, aliased: bool, data: seq<Byte>)
    requires (t == ImaNg || t == ImaSig) && env.name == NameOf(t) && Canonical(t, data)
    ensures var path := data[48..47 + ReadU32(data, 44)];
            PathOk(t, path) && GetTemplateData(env, aliased, data) == Path(path) && data == Build(t, data[12..44], path)
  {
    hide ReadU32, BytesOfU32, GetTemplateData, HashAlgo, CString;
    var n := ReadU32(data, 44);
    var path := data[48..47 + n];
    LastOfAlgo(data);
    TwoFields(env, t, aliased, data);
    CStringOf(path, []);
    assert data[48..48 + n] == path + [0] + [];
    U32Unique(data, 0);
    U32Unique(data, 44);
    SevenParts(data, 4, 12, 44, 48, 47 + n, 48 + n);
    assert data[47 + n..48 + n] == [0];
    assert t != ImaSig ==> data[48 + n..] == [];
  }

  lemma LastOfAlgo(data: seq<Byte>)
    requires |data| >= 12 && data[4..12] == HashAlgo()
    ensures data[11] == 0
  {
    assert data[4..12][7] == data[11];
  }

  lemma SevenParts(s: seq<Byte>, a: nat, b: nat, c: nat, d: nat, e: nat, f: nat)
    requires a <= b <= c <= d <= e <= f <= |s|
    ensures s == s[0..a] + s[a..b] + s[b..c] + s[c..d] + s[d..e] + s[e..f] + s[f..]
  {
    NextPart(s, a, b);
    NextPart(s, b, c);
    NextPart(s, c, d);
    NextPart(s, d, e);
    NextPart(s, e, f);
    NextPart(s, f, |s|);
  }

  lemma NextPart(s: seq<Byte>, a: nat, b: nat)
    requires a <= b <= |s|
    ensures s[0..a] + s[a..b] == s[0..b] && s[a..|s|] == s[a..] && s[0..|s|] == s
  {
  }

  /** Entries of the plain "ima" template never yield a path, so the parser stops at them. */
  lemma PlainImaHasNoPath(env: Env, aliased: bool, data: seq<Byte>)
    requires env.name == NameOf(Ima) && |data| < 0x1_0000_0000
    ensures !GetTemplateData(env, aliased, data).Path?
  {
    hide Walk, Split, Format, KindOf;
    if GetTemplateData(env, aliased, data).Path? {
      PathNeedsField(env, data, Split(Format(env.name, aliased)), Cursor(0, 0, 0));
      ImaHasNoKind();
    }
  }

  lemma ImaHasNoKind()
    ensures KindOf(NameOf(Ima)) == NoKind
  {
  }
}
