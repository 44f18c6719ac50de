/** Template names, the field lists they stand for, and the walk over the fields of an entry. */
module ImaFormat {
  import opened Words

  // ---- C strings ----

  /** The bytes up to the first NUL. */
  function CString(b: seq<Byte>): (s: seq<Byte>)
    ensures |s| <= |b| && s == b[..|s|] && NulFree(s) && (|s| < |b| ==> b[|s|] == 0)
  {
    if b == [] || b[0] == 0 then [] else [b[0]] + CString(b[1..])
  }

  predicate NulFree(b: seq<Byte>) {
    forall i :: 0 <= i < |b| ==> b[i] != 0
  }

  lemma {:induction false} CStringOf(s: seq<Byte>, rest: seq<Byte>)
    requires NulFree(s)
    ensures CString(s + [0] + rest) == s
  {
    if s == [] {
      assert (s + [0] + rest)[0] == 0;
    } else {
      assert (s + [0] + rest)[1..] == s[1..] + [0] + rest;
      CStringOf(s[1..], rest);
    }
  }

  // ---- Templates ----

  datatype Template = Ima | ImaNg | ImaSig | ImaModsig | Unknown

  /** The template names are told apart by their lengths. */
  function NameOf(t: Template): (name: seq<Byte>)
    requires t != Unknown
    ensures NulFree(name)
    ensures |name| == if t == Ima then 3 else if t == ImaNg then 6 else if t == ImaSig then 7 else 10
  {
    match t
    case Ima => Ascii("ima")
    case ImaNg => Ascii("ima-ng")
    case ImaSig => Ascii("ima-sig")
    case ImaModsig => Ascii("ima-modsig")
  }

  function TemplateNamed(name: seq<Byte>): (t: Template)
    ensures t != Unknown ==> name == NameOf(t)
  {
    if name == NameOf(Ima) then Ima
    else if name == NameOf(ImaNg) then ImaNg
    else if name == NameOf(ImaSig) then ImaSig
    else if name == NameOf(ImaModsig) then ImaModsig
    else Unknown
  }

  lemma NamesDiffer(t: Template)
    requires t != Unknown
    ensures TemplateNamed(NameOf(t)) == t
  {
    hide Ascii;
  }

  // ---- Field lists ----

  const BAR: Byte := 0x7C

  predicate BarFree(b: seq<Byte>) {
    forall i :: 0 <= i < |b| ==> b[i] != BAR
  }

  function FirstBar(format: seq<Byte>, from: nat): (n: nat)
    requires from <= |format|
    ensures from <= n <= |format| && (n < |format| ==> format[n] == BAR)
    ensures forall i :: from <= i < n ==> format[i] != BAR
    decreases |format| - from
  {
    if from == |format| || format[from] == BAR then from else FirstBar(format, from + 1)
  }

  /** strsep: the parts of a format between its bars. */
  function Split(format: seq<Byte>): (fields: seq<seq<Byte>>)
    ensures 1 <= |fields| <= |format| + 1
  {
    var n := FirstBar(format, 0);
    if n == |format| then [format] else [format[..n]] + Split(format[n + 1..])
  }

  function Join(fields: seq<seq<Byte>>): seq<Byte>
    requires fields != []
  {
    if |fields| == 1 then fields[0] else fields[0] + [BAR] + Join(fields[1..])
  }

  /** A format splits into the fields it was joined from. */
  lemma {:induction false} SplitJoins(fields: seq<seq<Byte>>)
    requires fields != [] && forall f :: f in fields ==> BarFree(f)
    ensures Split(Join(fields)) == fields
  {
    var f, format := fields[0], Join(fields);
    assert BarFree(f);
    if |fields| == 1 {
      assert FirstBar(format, 0) == |format|;
      assert fields == [f];
    } else {
      var n := FirstBar(format, 0);
      assert format[|f|] == BAR;
      assert forall i :: 0 <= i < |f| ==> format[i] == f[i];
      assert n == |f|;
      SplitJoins(fields[1..]);
      assert format[..n] == f && format[n + 1..] == Join(fields[1..]);
      assert fields == [f] + fields[1..];
    }
  }

  predicate Starts(b: seq<Byte>, prefix: seq<Byte>) {
    |prefix| <= |b| && b[..|prefix|] == prefix
  }

  // The fields the source knows by name or by the beginning of their name.
  function D(): (f: seq<Byte>)
    ensures f == [0x64]
  {
    Ascii("d")
  }

  function N(): (f: seq<Byte>)
    ensures f == [0x6E]
  {
    Ascii("n")
  }

  function DNg(): (f: seq<Byte>)
    ensures f == [0x64, 0x2D, 0x6E, 0x67]
  {
    Ascii("d-ng")
  }

  function NNg(): (f: seq<Byte>)
    ensures f == [0x6E, 0x2D, 0x6E, 0x67]
  {
    Ascii("n-ng")
  }

  function Sig(): (f: seq<Byte>)
    ensures f == [0x73, 0x69, 0x67]
  {
    Ascii("sig")
  }

  function DModsig(): (f: seq<Byte>)
    ensures f == [0x64, 0x2D, 0x6D, 0x6F, 0x64, 0x73, 0x69, 0x67]
  {
    Ascii("d-modsig")
  }

  function Modsig(): (f: seq<Byte>)
    ensures f == [0x6D, 0x6F, 0x64, 0x73, 0x69, 0x67]
  {
    Ascii("modsig")
  }

  /** The fields in the descriptor table. */
  function KnownFields(t: Template): (fields: seq<seq<Byte>>)
    requires t != Unknown
    ensures fields != []
  {
    match t
    case Ima => [D(), N()]
    case ImaNg => [DNg(), NNg()]
    case ImaSig => [DNg(), NNg(), Sig()]
    case ImaModsig => [DNg(), NNg(), Sig(), DModsig(), Modsig()]
  }

  /** The format of a template. An unknown name is its own format; the last entry of the table is made
      to point to it (`aliased`), and from then on to the name of whatever entry is read. */
  function Format(name: seq<Byte>, aliased: bool): seq<Byte> {
    var t := TemplateNamed(name);
    if t == Unknown || (t == ImaModsig && aliased) then name else Join(KnownFields(t))
  }

  function Aliases(name: seq<Byte>, aliased: bool): bool {
    aliased || TemplateNamed(name) == Unknown
  }

  lemma KnownSplit(t: Template, aliased: bool)
    requires t != Unknown && (aliased ==> t != ImaModsig)
    ensures Split(Format(NameOf(t), aliased)) == KnownFields(t)
  {
    hide Ascii, Split, Join;
    NamesDiffer(t);
    SplitJoins(KnownFields(t));
  }

  /** The templates with a file name begin with a digest field and the name field. */
  lemma KnownFieldsStart(t: Template)
    requires t == ImaNg || t == ImaSig || t == ImaModsig
    ensures |KnownFields(t)| >= 2 && KnownFields(t) == [DNg()] + ([NNg()] + KnownFields(t)[2..])
  {
    hide Ascii;
  }

  // ---- get_template_data ----

  /** How the fields of a template are treated, by the beginning of its name. */
  datatype Kind = SigKind | ModsigKind | NgKind | NoKind

  function KindOf(name: seq<Byte>): Kind {
    if Starts(name, NameOf(ImaSig)) then SigKind
    else if Starts(name, NameOf(ImaModsig)) then ModsigKind
    else if Starts(name, NameOf(ImaNg)) then NgKind
    else NoKind
  }

  /** The returned path, no path, or a read outside of the template data. */
  datatype Found = Path(path: seq<Byte>) | Nothing | Overrun

  /** The local variables of the walk. `digestAt` and `digestLen` are what is printed as the digest. */
  datatype Cursor = Cursor(offset: UInt32, digestAt: nat, digestLen: UInt32)

  /** The template name and the answers of the module signature parser, a foreign function. */
  datatype Env = Env(name: seq<Byte>, modsig: seq<Byte> -> bool)

  datatype Step = Stop(found: Found) | Go(cursor: Cursor)

  /** n bytes can be read at an offset, which is a signed 32-bit variable. */
  predicate Within(data: seq<Byte>, offset: UInt32, n: nat) {
    offset < 0x8000_0000 && offset + n <= |data|
  }

  predicate HasNul(data: seq<Byte>, offset: UInt32) {
    Within(data, offset, 0) && |CString(data[offset..])| < |data| - offset
  }

  /** The length of a field, and where its contents start. */
  function FieldAt(name: seq<Byte>, data: seq<Byte>, f: seq<Byte>, offset: UInt32): (r: Option<(UInt32, UInt32)>)
    requires |data| < 0x1_0000_0000
  {
    if name == NameOf(Ima) && f == D() then Some((20, offset))
    else if name == NameOf(Ima) && f == N() then
      if HasNul(data, offset) then Some((|CString(data[offset..])|, offset)) else None
    else if Within(data, offset, 4) then Some((ReadU32(data, offset), offset + 4))
    else None
  }

  function Advanced(start: UInt32, len: UInt32): UInt32 {
    (start + len) % 0x1_0000_0000
  }

  /** The digest field: its algorithm name must end. */
  function DigestStep(data: seq<Byte>, len: UInt32, start: UInt32): Step {
    if !HasNul(data, start) then Stop(Overrun)
    else
      var algo := |CString(data[start..])| + 1;
      Go(Cursor(Advanced(start, len), start + algo, (len - algo) % 0x1_0000_0000))
  }

  /** The signature field prints the digest, and the signature if there is one; without one the offset
      stays in front of the field. */
  function SignatureStep(data: seq<Byte>, len: UInt32, start: UInt32, cur: Cursor): Step {
    if cur.digestLen > 0 && cur.digestAt + cur.digestLen > |data| then Stop(Overrun)
    else if |data| <= start then Go(cur.(offset := start))
    else if !Within(data, start, 1) then Stop(Overrun)
    else if data[start] != 3 then Go(cur.(offset := start))
    else if len < 9 || (len > 9 && !Within(data, start, len)) then Stop(Overrun)
    else Go(cur.(offset := Advanced(start, len)))
  }

  function NameStep(data: seq<Byte>, len: UInt32, start: UInt32): Step {
    if Within(data, start, len) then Stop(Path(CString(data[start..start + len]))) else Stop(Overrun)
  }

  function ModsigStep(env: Env, data: seq<Byte>, len: UInt32, start: UInt32, cur: Cursor): Step {
    if !Within(data, start, len) then Stop(Overrun)
    else Go(cur.(offset := if env.modsig(data[start..start + len]) then Advanced(start, len) else start))
  }

  function FieldStep(env: Env, data: seq<Byte>, f: seq<Byte>, cur: Cursor): (step: Step)
    requires |data| < 0x1_0000_0000
  {
    var at := FieldAt(env.name, data, f, cur.offset);
    if at.None? then Stop(Overrun)
    else
      var (len, start) := at.value;
      var skip := Go(cur.(offset := Advanced(start, len)));
      match KindOf(env.name)
      case SigKind =>
        if Starts(f, DNg()) then DigestStep(data, len, start)
        else if Starts(f, Sig()) then SignatureStep(data, len, start, cur)
        else if Starts(f, NNg()) then NameStep(data, len, start)
        else skip
      case ModsigKind =>
        if Starts(f, DNg()) then skip
        else if Starts(f, DModsig()) then DigestStep(data, len, start)
        else if f == Modsig() then ModsigStep(env, data, len, start, cur)
        else if Starts(f, NNg()) then NameStep(data, len, start)
        else skip
      case NgKind =>
        if Starts(f, DNg()) then DigestStep(data, len, start)
        else if Starts(f, NNg()) then NameStep(data, len, start)
        else skip
      case NoKind => skip
  }

  function Walk(env: Env, data: seq<Byte>, fields: seq<seq<Byte>>, cur: Cursor): Found
    requires |data| < 0x1_0000_0000
    decreases |fields|
  {
    if fields == [] then Nothing
    else
      var step := FieldStep(env, data, fields[0], cur);
      if step.Stop? then step.found else Walk(env, data, fields[1..], step.cursor)
  }

  function GetTemplateData(env: Env, aliased: bool, data: seq<Byte>): Found
    requires |data| < 0x1_0000_0000
  {
    Walk(env, data, Split(Format(env.name, aliased)), Cursor(0, 0, 0))
  }

  lemma WalkStep(env: Env, data: seq<Byte>, f: seq<Byte>, fields: seq<seq<Byte>>, cur: Cursor)
    requires |data| < 0x1_0000_0000
    ensures Walk(env, data, [f] + fields, cur) ==
            var step := FieldStep(env, data, f, cur);
            if step.Stop? then step.found else Walk(env, data, fields, step.cursor)
  {
    hide FieldStep;
    assert ([f] + fields)[1..] == fields;
  }

  lemma LengthField(name: seq<Byte>, data: seq<Byte>, f: seq<Byte>, offset: UInt32)
    requires name != NameOf(Ima) && Within(data, offset, 4) && |data| < 0x1_0000_0000
    ensures FieldAt(name, data, f, offset) == Some((ReadU32(data, offset), offset + 4))
  {
  }

  /** The offset is a signed 32-bit variable: from 2^31 on a field is looked for in front of the data. */
  lemma FieldExactly(name: seq<Byte>, data: seq<Byte>, f: seq<Byte>, offset: UInt32)
    requires name != Ascii("ima") && |data| < 0x1_0000_0000
    ensures var r := FieldAt(name, data, f, offset);
            && (r.Some? <==> offset < 0x8000_0000 && offset + 4 <= |data|)
            && (r.Some? ==> r.value.0 == ReadU32(data, offset) && r.value.1 == offset + 4)
  {
    hide ReadU32, Ascii;
  }

  lemma NulThere(data: seq<Byte>, offset: UInt32, at: nat)
    requires offset <= at < |data| && offset < 0x8000_0000 && data[at] == 0
    ensures HasNul(data, offset)
  {
    CStringEnds(data[offset..], at - offset);
  }

  lemma {:induction false} CStringEnds(b: seq<Byte>, k: nat)
    requires k < |b| && b[k] == 0
    ensures |CString(b)| <= k
  {
    if b[0] != 0 {
      CStringEnds(b[1..], k - 1);
    }
  }

  // ---- Which names yield a path ----

  /** The name says how to treat a name field, and its format has one. */
  predicate CanName(name: seq<Byte>, aliased: bool) {
    KindOf(name) != NoKind && exists f :: f in Split(Format(name, aliased)) && Starts(f, NNg())
  }

  lemma {:induction false} PathNeedsField(env: Env, data: seq<Byte>, fields: seq<seq<Byte>>, cur: Cursor)
    requires |data| < 0x1_0000_0000 && Walk(env, data, fields, cur).Path?
    ensures KindOf(env.name) != NoKind && exists f :: f in fields && Starts(f, NNg())
    decreases |fields|
  {
    hide FieldAt, DigestStep, SignatureStep, ModsigStep, KindOf, Starts;
    assert fields[0] in fields;
    var step := FieldStep(env, data, fields[0], cur);
    if step.Go? {
      PathNeedsField(env, data, fields[1..], step.cursor);
      var f :| f in fields[1..] && Starts(f, NNg());
      assert f in fields;
    } else {
      OnlyNamesStop(env, data, fields[0], cur);
    }
  }

  lemma OnlyNamesStop(env: Env, data: seq<Byte>, f: seq<Byte>, cur: Cursor)
    requires |data| < 0x1_0000_0000
    requires FieldStep(env, data, f, cur).Stop? && FieldStep(env, data, f, cur).found.Path?
    ensures KindOf(env.name) != NoKind && Starts(f, NNg())
  {
    hide FieldAt, HasNul, KindOf, Starts, CString;
  }

  /** The shortest contents of a field that let the walk go on: a NUL for a digest, else nothing. */
  function Blank(f: seq<Byte>): (b: seq<Byte>)
    ensures 4 <= |b| <= 5 && b[0] <= 1
  {
    if Starts(f, DNg()) || Starts(f, DModsig()) then [1, 0, 0, 0, 0] else [0, 0, 0, 0]
  }

  function Blanks(fields: seq<seq<Byte>>): (b: seq<Byte>)
    ensures 4 * |fields| <= |b| <= 5 * |fields|
  {
    if fields == [] then [] else Blank(fields[0]) + Blanks(fields[1..])
  }

  /** On blank fields the walk goes from field to field up to the first name field, which is empty. */
  lemma {:induction false} BlanksYieldPath(env: Env, before: seq<Byte>, fields: seq<seq<Byte>>, digestAt: nat)
    requires |before| + 5 * |fields| < 0x8000_0000 && KindOf(env.name) != NoKind
    requires exists f :: f in fields && Starts(f, NNg())
    ensures Walk(env, before + Blanks(fields), fields, Cursor(|before|, digestAt, 0)) == Path([])
    decreases |fields|
  {
    hide Starts, FieldStep, KindOf;
    var f, rest := fields[0], fields[1..];
    var data := before + Blanks(fields);
    assert data == before + Blank(f) + Blanks(rest) by { Assoc(before, Blank(f), Blanks(rest)); }
    BlankStep(env, before, f, Blanks(rest), digestAt);
    assert fields == [f] + rest;
    WalkStep(env, data, f, rest, Cursor(|before|, digestAt, 0));
    var step := FieldStep(env, data, f, Cursor(|before|, digestAt, 0));
    if step.Go? {
      assert exists g :: g in rest && Starts(g, NNg());
      BlanksYieldPath(env, before + Blank(f), rest, step.cursor.digestAt);
    }
  }

  /** A name field with no contents ends the walk; any other blank field is passed. */
  lemma BlankStep(env: Env, before: seq<Byte>, f: seq<Byte>, more: seq<Byte>, digestAt: nat)
    requires |before| + 5 + |more| < 0x8000_0000 && KindOf(env.name) != NoKind
    requires !Starts(f, NNg()) ==> more != [] && more[0] <= 1
    ensures var data, cur := before + Blank(f) + more, Cursor(|before|, digestAt, 0);
            var step := FieldStep(env, data, f, cur);
            if Starts(f, NNg()) then step == Stop(Path([]))
            else step.Go? && step.cursor.offset == |before| + |Blank(f)| && step.cursor.digestLen == 0
  {
    var data, start := before + Blank(f) + more, |before| + 4;
    BlankBytes(before, f, more);
    NotIma(env.name);
    LengthField(env.name, data, f, |before|);
    FieldsDiffer(f);
    if Starts(f, DNg()) || Starts(f, DModsig()) {
      NulAtOnce(data, start);
    }
  }

  lemma BlankBytes(before: seq<Byte>, f: seq<Byte>, more: seq<Byte>)
    ensures var data, n := before + Blank(f) + more, |before|;
            && ReadU32(data, n) == |Blank(f)| - 4
            && (|Blank(f)| == 5 ==> data[n + 4] == 0)
            && (|Blank(f)| == 4 && more != [] ==> data[n + 4] == more[0])
  {
    hide Starts;
    var data, n := before + Blank(f) + more, |before|;
    assert data[n..n + |Blank(f)|] == Blank(f);
    assert data[n] == Blank(f)[0] && data[n + 1] == Blank(f)[1] && data[n + 2] == Blank(f)[2]
           && data[n + 3] == Blank(f)[3];
  }

  lemma NulAtOnce(data: seq<Byte>, at: UInt32)
    requires at < |data| && at < 0x8000_0000 && data[at] == 0
    ensures HasNul(data, at) && CString(data[at..]) == []
  {
    CStringEnds(data[at..], 0);
  }

  lemma NotIma(name: seq<Byte>)
    requires KindOf(name) != NoKind
    ensures name != NameOf(Ima)
  {
  }

  lemma FieldsDiffer(f: seq<Byte>)
    ensures Starts(f, NNg()) ==> !Starts(f, DNg()) && !Starts(f, DModsig()) && !Starts(f, Sig()) && f != Modsig()
    ensures Starts(f, DNg()) ==> !Starts(f, DModsig()) && !Starts(f, Sig()) && f != Modsig()
    ensures Starts(f, DModsig()) ==> !Starts(f, Sig()) && f != Modsig()
  {
    assert Starts(f, DNg()) ==> f[2] == f[..4][2];
    assert Starts(f, DModsig()) ==> f[2] == f[..8][2];
    assert Starts(f, NNg()) ==> f[0] == f[..4][0];
    assert Starts(f, Sig()) ==> f[0] == f[..3][0];
  }

  /** An entry can yield a path exactly when the name begins with one of the three known names that
      have a file name, and its format has a field that begins with n-ng. */
  lemma NamesThatYieldPaths(modsig: seq<Byte> -> bool, name: seq<Byte>, aliased: bool)
    requires |name| < 0x100
    ensures CanName(name, aliased) <==>
            exists data: seq<Byte> :: |data| < 0x8000_0000 && GetTemplateData(Env(name, modsig), aliased, data).Path?
  {
    hide Walk, KindOf, Starts, Ascii;
    var env, fields := Env(name, modsig), Split(Format(name, aliased));
    if CanName(name, aliased) {
      FormatLength(name, aliased);
      BlanksYieldPath(env, [], fields, 0);
      assert [] + Blanks(fields) == Blanks(fields);
      assert GetTemplateData(env, aliased, Blanks(fields)).Path?;
    }
    forall data: seq<Byte> | |data| < 0x8000_0000 && GetTemplateData(env, aliased, data).Path?
      ensures CanName(name, aliased)
    {
      PathNeedsField(env, data, fields, Cursor(0, 0, 0));
    }
  }

  lemma FormatLength(name: seq<Byte>, aliased: bool)
    requires |name| < 0x100
    ensures |Split(Format(name, aliased))| <= 0x100
  {
    hide Split, Ascii;
    var t := TemplateNamed(name);
    if t != Unknown && !(t == ImaModsig && aliased) {
      NamesDiffer(t);
      KnownSplit(t, aliased);
    }
  }

  /** A name that is its own field list can yield paths. Once it has been read, entries of the
      ima-modsig template, which yielded them before, no longer do. */
  lemma OddNameTakesOver()
    ensures var odd, modsig := Ascii("ima-sig") + [BAR] + DNg() + [BAR] + NNg(), NameOf(ImaModsig);
            && CanName(odd, false) && Aliases(odd, false)
            && CanName(modsig, false) && !CanName(modsig, true)
  {
    hide Split, Join, Ascii;
    var fields := [NameOf(ImaSig), DNg(), NNg()];
    var odd, modsig := NameOf(ImaSig) + [BAR] + DNg() + [BAR] + NNg(), NameOf(ImaModsig);
    OddFields();
    NamesDiffer(ImaModsig);
    KnownSplit(ImaModsig, false);
    assert NNg() in fields && Starts(NNg(), NNg());
    assert NNg() in KnownFields(ImaModsig);
    ModsigIsOneField();
  }

  lemma OddFields()
    ensures var odd := NameOf(ImaSig) + [BAR] + DNg() + [BAR] + NNg();
            && Split(odd) == [NameOf(ImaSig), DNg(), NNg()] && Format(odd, false) == odd
            && TemplateNamed(odd) == Unknown && KindOf(odd) == SigKind
    ensures KindOf(NameOf(ImaModsig)) == ModsigKind
  {
    hide Split;
    var fields := [NameOf(ImaSig), DNg(), NNg()];
    var odd := NameOf(ImaSig) + [BAR] + DNg() + [BAR] + NNg();
    SplitJoins(fields);
    assert odd == NameOf(ImaSig) + [BAR] + (DNg() + [BAR] + NNg());
    assert fields[1..] == [DNg(), NNg()] && fields[1..][1..] == [NNg()];
    assert Join(fields) == NameOf(ImaSig) + [BAR] + (DNg() + [BAR] + NNg());
    assert NameOf(ImaModsig)[..10] == NameOf(ImaModsig);
    assert NameOf(ImaModsig)[..7] != NameOf(ImaSig) by {
      assert NameOf(ImaModsig)[4] == 0x6D && NameOf(ImaSig)[4] == 0x73;
      assert NameOf(ImaModsig)[..7][4] == NameOf(ImaModsig)[4];
    }
  }

  lemma ModsigIsOneField()
    ensures Split(Format(NameOf(ImaModsig), true)) == [NameOf(ImaModsig)]
    ensures !Starts(NameOf(ImaModsig), NNg())
  {
    hide Split;
    SplitJoins([NameOf(ImaModsig)]);
    assert NameOf(ImaModsig)[..4][0] == 0x69;
  }
}
