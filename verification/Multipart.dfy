/** The multipart/form-data parser (section 5.1.1 of RFC 2046, section 4 of RFC 7578). */
module Multipart {
  import opened Bytes

  const HEADER_BUFFER := 512

  /** CR LF */
  function Crlf(): (s: seq<byte>)
    ensures |s| == 2
  {
    [13, 10]
  }

  /** CR LF CR LF */
  function EmptyLine(): (s: seq<byte>)
    ensures |s| == 4
  {
    [13, 10, 13, 10]
  }

  /** "Content-Disposition:" */
  function DispositionText(): (s: seq<byte>)
    ensures |s| == 20
  {
    [67, 111, 110, 116, 101, 110, 116, 45, 68, 105, 115, 112, 111, 115, 105, 116, 105, 111, 110, 58]
  }

  /** name=" */
  function NameText(): (s: seq<byte>)
    ensures |s| == 6
  {
    [110, 97, 109, 101, 61, 34]
  }

  /** filename=" */
  function FilenameText(): (s: seq<byte>)
    ensures |s| == 10
  {
    [102, 105, 108, 101, 110, 97, 109, 101, 61, 34]
  }

  /** title */
  function TitleText(): (s: seq<byte>)
    ensures |s| == 5
  {
    [116, 105, 116, 108, 101]
  }

  /** description */
  function DescriptionText(): (s: seq<byte>)
    ensures |s| == 11
  {
    [100, 101, 115, 99, 114, 105, 112, 116, 105, 111, 110]
  }

  lemma Texts()
    ensures Spells(DispositionText(), "Content-Disposition:")
    ensures Spells(NameText(), "name=\"") && Spells(FilenameText(), "filename=\"")
    ensures Spells(TitleText(), "title") && Spells(DescriptionText(), "description")
    ensures Spells(Crlf(), "\r\n") && Spells(EmptyLine(), "\r\n\r\n")
  {
  }

  // --- searching ---

  predicate Occurs(hay: seq<byte>, needle: seq<byte>, i: nat) {
    i + |needle| <= |hay| && hay[i..i + |needle|] == needle
  }

  ghost predicate Absent(hay: seq<byte>, needle: seq<byte>) {
    forall i: nat :: !Occurs(hay, needle, i)
  }

  function FindFrom(hay: seq<byte>, needle: seq<byte>, i: nat): (r: Option<nat>)
    ensures r.Some? ==> i <= r.value && Occurs(hay, needle, r.value)
    ensures forall j: nat :: i <= j && (r.Some? ==> j < r.value) ==> !Occurs(hay, needle, j)
    decreases |hay| - i
  {
    if i + |needle| > |hay| then None
    else if hay[i..i + |needle|] == needle then Some(i)
    else if i == |hay| then None
    else FindFrom(hay, needle, i + 1)
  }

  /** The first place where `needle` stands; an empty needle is not found. */
  function Find(hay: seq<byte>, needle: seq<byte>): Option<nat> {
    if needle == [] then None else FindFrom(hay, needle, 0)
  }

  lemma FoundAt(hay: seq<byte>, needle: seq<byte>, k: nat)
    requires needle != [] && Occurs(hay, needle, k)
    requires forall j: nat :: j < k ==> !Occurs(hay, needle, j)
    ensures Find(hay, needle) == Some(k)
  {
  }

  lemma FoundIs(hay: seq<byte>, needle: seq<byte>)
    requires Find(hay, needle).Some?
    ensures Occurs(hay, needle, Find(hay, needle).value)
    ensures needle != [] && Find(hay, needle).value + |needle| <= |hay|
  {
  }

  lemma FoundNone(hay: seq<byte>, needle: seq<byte>)
    requires needle != []
    ensures Find(hay, needle).None? <==> Absent(hay, needle)
  {
  }

  /** find_bytes */
  method FindBytes(hay: seq<byte>, needle: seq<byte>) returns (r: Option<nat>)
    ensures r == Find(hay, needle)
  {
    if |hay| == 0 || |needle| == 0 || |needle| > |hay| {
      return None;
    }
    var i := 0;
    while i + |needle| <= |hay|
      invariant 0 <= i <= |hay| && FindFrom(hay, needle, 0) == FindFrom(hay, needle, i)
    {
      if hay[i..i + |needle|] == needle {
        return Some(i);
      }
      i := i + 1;
    }
    r := None;
  }

  // --- headers ---

  datatype Kind = File | Title | Description | Other

  /** A C string: the bytes before the first NUL. */
  function Str(s: seq<byte>): seq<byte> {
    if s == [] || s[0] == 0 then [] else [s[0]] + Str(s[1..])
  }

  /** What the 512-byte header buffer holds as a string. */
  function HeaderString(raw: seq<byte>): seq<byte> {
    Str(if |raw| >= HEADER_BUFFER then raw[..HEADER_BUFFER - 1] else raw)
  }

  function KindOf(raw: seq<byte>): Kind {
    var hdr := HeaderString(raw);
    var disp := Find(hdr, DispositionText());
    if disp.None? then Other
    else
      FoundIs(hdr, DispositionText());
      KindAt(hdr[disp.value..])
  }

  /** From "Content-Disposition:" on: a file name makes a file, else the name decides by how it begins. */
  function KindAt(text: seq<byte>): Kind {
    var name := Find(text, NameText());
    if Find(text, FilenameText()).Some? then File
    else if name.None? then Other
    else
      FoundIs(text, NameText());
      NameKind(text[name.value + 6..])
  }

  function NameKind(name: seq<byte>): Kind {
    if TitleText() <= name then Title else if DescriptionText() <= name then Description else Other
  }

  /** Only the first 511 bytes of a header count, and nothing after a NUL in it. */
  lemma HeaderEnds(raw: seq<byte>, rest: seq<byte>)
    ensures |raw| == 511 ==> KindOf(raw + rest) == KindOf(raw)
    ensures KindOf(raw + [0] + rest) == KindOf(raw)
  {
    hide Find, KindAt, HeaderString;
    HeaderCut(raw, rest);
    HeaderStops(raw, rest);
  }

  lemma HeaderCut(raw: seq<byte>, rest: seq<byte>)
    ensures |raw| == 511 ==> HeaderString(raw + rest) == HeaderString(raw)
  {
    hide Str;
    if |raw| == 511 {
      if rest == [] {
        assert raw + rest == raw;
      } else {
        assert (raw + rest)[..511] == raw;
      }
    }
  }

  lemma HeaderStops(raw: seq<byte>, rest: seq<byte>)
    ensures HeaderString(raw + [0] + rest) == HeaderString(raw)
  {
    hide Str;
    var all := raw + [0] + rest;
    if |all| < 512 {
      StrStops(raw, rest);
    } else if |raw| < 511 {
      assert all[..511] == raw + [0] + rest[..510 - |raw|];
      StrStops(raw, rest[..510 - |raw|]);
    } else {
      assert all[..511] == raw[..511];
      assert |raw| == 511 ==> raw[..511] == raw;
    }
  }

  lemma {:induction false} StrStops(s: seq<byte>, rest: seq<byte>)
    ensures Str(s + [0] + rest) == Str(s)
  {
    var all := s + [0] + rest;
    if s != [] {
      assert all[0] == s[0] && all[1..] == s[1..] + [0] + rest;
      StrStops(s[1..], rest);
    }
  }

  // --- parsing ---

  /** The sizes of the two text buffers, 0 for one that is NULL, and whether malloc(0) gives a pointer. */
  datatype Limits = Limits(title: nat, desc: nat, mallocZero: bool)

  /** What the out-parameters hold: the file buffer and the length reported for it, the two strings. */
  datatype Form = Form(file: Option<seq<byte>>, fileLen: nat, title: seq<byte>, desc: seq<byte>)

  const EMPTY_FORM := Form(None, 0, [], [])

  /** What fits into a buffer before the NUL; nothing goes into one that is NULL. */
  function Cut(data: seq<byte>, size: nat): seq<byte> {
    if size == 0 then [] else if |data| < size - 1 then data else data[..size - 1]
  }

  /** The longest beginning that leaves room for the NUL. */
  lemma CutIs(data: seq<byte>, size: nat, other: seq<byte>)
    ensures size > 0 ==> Cut(data, size) <= data && |Cut(data, size)| < size
    ensures other <= data && |other| < size ==> other <= Cut(data, size)
    ensures size == 0 ==> Cut(data, size) == []
  {
  }

  function Store(form: Form, kind: Kind, data: seq<byte>, limits: Limits): Form {
    match kind
    case File =>
      if data == [] then form.(file := if limits.mallocZero then Some([]) else None)
      else form.(file := Some(data), fileLen := |data|)
    case Title => form.(title := Cut(data, limits.title))
    case Description => form.(desc := Cut(data, limits.desc))
    case Other => form
  }

  /** The data of a part without the CR LF that belongs to the next delimiter. */
  function Trim(data: seq<byte>): seq<byte> {
    if |data| >= 2 && data[|data| - 2] == 13 && data[|data| - 1] == 10 then data[..|data| - 2] else data
  }

  /** One CR LF goes, if the data end with it. */
  lemma TrimIs(data: seq<byte>)
    ensures Trim(data + Crlf()) == data
    ensures (forall d: seq<byte> :: data != d + Crlf()) ==> Trim(data) == data
  {
    if Trim(data) != data {
      assert data == Trim(data) + Crlf();
    }
  }

  datatype Found = Found(header: seq<byte>, data: seq<byte>, rest: seq<byte>)

  /** One pass of the loop: the next part, unless the pass ends the loop. */
  function NextPart(rest: seq<byte>, boundary: seq<byte>): (r: Option<Found>)
    ensures r.Some? ==> |r.value.rest| < |rest|
  {
    var k := Find(rest, boundary);
    if k.None? then None
    else
      FoundIs(rest, boundary);
      var q := rest[k.value + |boundary|..];
      if |q| < 2 || (q[0] == 45 && q[1] == 45) then None
      else
        var h := Find(q, EmptyLine());
        if h.None? then None
        else
          FoundIs(q, EmptyLine());
          var d := q[h.value + 4..];
          var n := Find(d, boundary);
          if n.None? then None
          else
            FoundIs(d, boundary);
            Some(Found(q[..h.value], d[..n.value], d[n.value..]))
  }

  /** `needle` stands at `k` and nowhere before. */
  ghost predicate First(hay: seq<byte>, needle: seq<byte>, k: nat) {
    Occurs(hay, needle, k) && forall j: nat | j < k :: !Occurs(hay, needle, j)
  }

  /** A part: from the first boundary, which no "--" follows, its header up to the first empty line, then its
      data up to the next boundary. */
  ghost predicate IsPart(rest: seq<byte>, boundary: seq<byte>, preamble: seq<byte>, part: Found) {
    && rest == preamble + boundary + part.header + EmptyLine() + part.data + part.rest
    && First(rest, boundary, |preamble|)
    && (part.header + EmptyLine() + part.data + part.rest)[..2] != [45, 45]
    && First(part.header + EmptyLine() + part.data + part.rest, EmptyLine(), |part.header|)
    && First(part.data + part.rest, boundary, |part.data|)
  }

  lemma FindIff(hay: seq<byte>, needle: seq<byte>, k: nat)
    requires needle != []
    ensures Find(hay, needle) == Some(k) <==> First(hay, needle, k)
  {
    hide Occurs;
  }

  /** For every text: a pass finds exactly such a part. */
  lemma NextPartIff(rest: seq<byte>, boundary: seq<byte>, part: Found)
    requires boundary != []
    ensures NextPart(rest, boundary) == Some(part) <==> exists preamble :: IsPart(rest, boundary, preamble, part)
  {
    hide First, Find, EmptyLine, NextPart, IsPart;
    if NextPart(rest, boundary) == Some(part) {
      var preamble := PartFound(rest, boundary, part);
    }
    if preamble :| IsPart(rest, boundary, preamble, part) {
      PartIsFound(rest, boundary, preamble, part);
    }
  }

  lemma PartFound(rest: seq<byte>, boundary: seq<byte>, part: Found) returns (preamble: seq<byte>)
    requires boundary != [] && NextPart(rest, boundary) == Some(part)
    ensures IsPart(rest, boundary, preamble, part)
  {
    hide First, Find, EmptyLine, IsPart, Occurs;
    FoundIs(rest, boundary);
    var k := Find(rest, boundary).value;
    var q := rest[k + |boundary|..];
    FoundIs(q, EmptyLine());
    var h := Find(q, EmptyLine()).value;
    var d := q[h + 4..];
    FoundIs(d, boundary);
    var n := Find(d, boundary).value;
    FindIff(rest, boundary, k);
    FindIff(q, EmptyLine(), h);
    FindIff(d, boundary, n);
    StartsWithDashes(q);
    preamble := rest[..k];
    PartAt(rest, boundary, k, q, h, d, n);
  }

  lemma PartAt(rest: seq<byte>, boundary: seq<byte>, k: nat, q: seq<byte>, h: nat, d: seq<byte>, n: nat)
    requires k + |boundary| <= |rest| && q == rest[k + |boundary|..] && h + 4 <= |q| && d == q[h + 4..] && n <= |d|
    requires First(rest, boundary, k) && First(q, EmptyLine(), h) && First(d, boundary, n) && q[..2] != [45, 45]
    ensures IsPart(rest, boundary, rest[..k], Found(q[..h], d[..n], d[n..]))
  {
    hide EmptyLine;
    CutAt(rest, boundary, k);
    CutAt(q, EmptyLine(), h);
    hide First, Occurs;
    assert d == d[..n] + d[n..];
    Regroup(rest[..k], boundary, q[..h], EmptyLine(), d[..n], d[n..]);
  }

  lemma Regroup(a: seq<byte>, b: seq<byte>, c: seq<byte>, d: seq<byte>, e: seq<byte>, f: seq<byte>)
    ensures c + d + (e + f) == c + d + e + f
    ensures a + b + (c + d + (e + f)) == a + b + c + d + e + f
  {
  }

  lemma StartsWithDashes(q: seq<byte>)
    requires |q| >= 2
    ensures q[..2] == [45, 45] <==> q[0] == 45 && q[1] == 45
  {
  }

  lemma CutAt(hay: seq<byte>, needle: seq<byte>, k: nat)
    requires Occurs(hay, needle, k)
    ensures hay == hay[..k] + needle + hay[k + |needle|..]
  {
  }

  lemma PartIsFound(rest: seq<byte>, boundary: seq<byte>, preamble: seq<byte>, part: Found)
    requires boundary != [] && IsPart(rest, boundary, preamble, part)
    ensures NextPart(rest, boundary) == Some(part)
  {
    hide First, Find, EmptyLine;
    var d := part.data + part.rest;
    var q := part.header + EmptyLine() + part.data + part.rest;
    FindIff(rest, boundary, |preamble|);
    FindIff(q, EmptyLine(), |part.header|);
    FindIff(d, boundary, |part.data|);
    Regroup(preamble, boundary, part.header, EmptyLine(), part.data, part.rest);
    CutBack(preamble, boundary, q);
    CutBack(part.header, EmptyLine(), d);
    CutBack(part.data, [], part.rest);
    assert part.data + [] + part.rest == d;
    StartsWithDashes(q);
  }

  lemma CutBack(left: seq<byte>, needle: seq<byte>, right: seq<byte>)
    ensures var all := left + needle + right; all[..|left|] == left && all[|left| + |needle|..] == right
  {
  }

  function Parse(rest: seq<byte>, boundary: seq<byte>, form: Form, limits: Limits): Form
    decreases |rest|
  {
    var part := NextPart(rest, boundary);
    if part.None? then form
    else Parse(part.value.rest, boundary, Store(form, KindOf(part.value.header), Trim(part.value.data), limits), limits)
  }

  predicate Accepted(form: Form) {
    form.file.Some? && form.fileLen > 0
  }

  // --- the code ---

  /** The bytes and a NUL at the start of a buffer */
  predicate Holds(mem: seq<byte>, s: seq<byte>) {
    |s| < |mem| && mem[..|s|] == s && mem[|s|] == 0
  }

  method CopyText(buffer: array<byte>, data: seq<byte>)
    requires buffer.Length > 0
    modifies buffer
    ensures Holds(buffer[..], Cut(data, buffer.Length))
  {
    var copy := if |data| < buffer.Length - 1 then |data| else buffer.Length - 1;
    forall i | 0 <= i < copy {
      buffer[i] := data[i];
    }
    buffer[copy] := 0;
    assert buffer[..][..copy] == data[..copy];
  }

  function SizeOf(buffer: array?<byte>): nat {
    if buffer == null then 0 else buffer.Length
  }

  /** A buffer that is there holds the string; for one that is NULL the string stays empty. */
  ghost predicate BufferHolds(buffer: array?<byte>, s: seq<byte>)
    reads buffer
  {
    if buffer == null then s == [] else Holds(buffer[..], s)
  }

  /** The searches of one pass of the loop. */
  method ReadPart(rest: seq<byte>, boundary: seq<byte>) returns (part: Option<Found>)
    ensures part == NextPart(rest, boundary)
  {
    hide Find;
    part := None;
    var b := FindBytes(rest, boundary);
    if b.None? {
      return;
    }
    FoundIs(rest, boundary);
    var p := rest[b.value + |boundary|..];
    if |p| < 2 || (p[0] == 45 && p[1] == 45) {
      return;
    }
    var headerEnd := FindBytes(p, EmptyLine());
    if headerEnd.None? {
      return;
    }
    FoundIs(p, EmptyLine());
    var data := p[headerEnd.value + 4..];
    var next := FindBytes(data, boundary);
    if next.None? {
      return;
    }
    FoundIs(data, boundary);
    part := Some(Found(p[..headerEnd.value], data[..next.value], data[next.value..]));
  }

  /** parse_multipart; either text buffer may be NULL. */
  method ParseMultipart(body: seq<byte>, boundary: seq<byte>, title: array?<byte>, desc: array?<byte>,
                        mallocZero: bool)
    returns (rc: int, file: Option<seq<byte>>, fileLen: nat)
    requires (title != null ==> title.Length > 0) && (desc != null ==> desc.Length > 0)
    requires title != null && desc != null ==> title != desc
    modifies if title == null then {} else {title}, if desc == null then {} else {desc}
    ensures var form := Parse(body, boundary, EMPTY_FORM, Limits(SizeOf(title), SizeOf(desc), mallocZero));
            && rc == (if Accepted(form) then 0 else -1)
            && file == form.file && fileLen == form.fileLen
            && BufferHolds(title, form.title) && BufferHolds(desc, form.desc)
  {
    hide NextPart, KindOf, Trim, Cut;
    ghost var limits := Limits(SizeOf(title), SizeOf(desc), mallocZero);
    ghost var form := EMPTY_FORM;
    file, fileLen := None, 0;
    if title != null {
      title[0] := 0;
    }
    if desc != null {
      desc[0] := 0;
    }
    var p := 0;
    assert body[0..] == body;
    NothingLeft(boundary);
    while p < |body|
      invariant 0 <= p <= |body|
      invariant file == form.file && fileLen == form.fileLen
      invariant BufferHolds(title, form.title) && BufferHolds(desc, form.desc)
      invariant Parse(body, boundary, EMPTY_FORM, limits) == Parse(body[p..], boundary, form, limits)
      decreases |body| - p
    {
      var rest := body[p..];
      var part := ReadPart(rest, boundary);
      if part.None? {
        break;
      }
      var data := Trim(part.value.data);
      var kind := KindOf(part.value.header);
      NoBuffer(data);
      if kind == File {
        if data == [] {
          file := if mallocZero then Some([]) else None;
        } else {
          file, fileLen := Some(data), |data|;
        }
      } else if kind == Title && title != null {
        CopyText(title, data);
      } else if kind == Description && desc != null {
        CopyText(desc, data);
      }
      form := Store(form, kind, data, limits);
      RestIsSuffix(rest, boundary);
      p := |body| - |part.value.rest|;
      assert body[p..] == part.value.rest;
    }
    rc := if file.Some? && fileLen > 0 then 0 else -1;
  }

  lemma NoBuffer(data: seq<byte>)
    ensures Cut(data, 0) == []
  {
  }

  lemma NothingLeft(boundary: seq<byte>)
    ensures NextPart([], boundary).None?
  {
  }

  lemma RestIsSuffix(rest: seq<byte>, boundary: seq<byte>)
    requires NextPart(rest, boundary).Some?
    ensures var tail := NextPart(rest, boundary).value.rest; |tail| < |rest| && rest[|rest| - |tail|..] == tail
  {
  }
}
