/** The parser of forms against a printer of forms. */
module MultipartRoundTrip {
  import opened Bytes
  import opened Multipart

  // --- the printer ---

  /** A part of a form; `extra` is whatever follows the disposition in its headers. */
  datatype Part =
    | FilePart(name: seq<byte>, filename: seq<byte>, extra: seq<byte>, data: seq<byte>)
    | FieldPart(name: seq<byte>, extra: seq<byte>, data: seq<byte>)

  /** "Content-Disposition: form-data; name=" and a quote */
  function DispositionStart(): (s: seq<byte>)
    ensures |s| == 38
  {
    DispositionText() + [32, 102, 111, 114, 109, 45, 100, 97, 116, 97, 59, 32] + NameText()
  }

  /** The header lines of a part. */
  function Header(p: Part): seq<byte> {
    match p
    case FilePart(name, filename, extra, _) =>
      DispositionStart() + name + [34, 59, 32] + FilenameText() + filename + [34] + extra
    case FieldPart(name, extra, _) => DispositionStart() + name + [34] + extra
  }

  /** What follows the first delimiter. */
  function PrintTail(parts: seq<Part>, delimiter: seq<byte>): (s: seq<byte>)
    ensures |s| >= 2
  {
    if parts == [] then [45, 45]
    else
      Crlf() + Header(parts[0]) + EmptyLine() + parts[0].data + Crlf() + delimiter + PrintTail(parts[1..], delimiter)
  }

  /** A body: anything before the first delimiter and after the last one is to be ignored. */
  function Print(preamble: seq<byte>, parts: seq<Part>, epilogue: seq<byte>, delimiter: seq<byte>): seq<byte> {
    preamble + delimiter + PrintTail(parts, delimiter) + epilogue
  }

  // --- what a printer has to respect ---

  predicate DelimiterOk(delimiter: seq<byte>) {
    delimiter != [] && forall i :: 0 <= i < |delimiter| ==> delimiter[i] != 13 && delimiter[i] != 10
  }

  /** Empty, or whole lines without the delimiter. */
  ghost predicate PreambleOk(preamble: seq<byte>, delimiter: seq<byte>) {
    Absent(preamble, delimiter) && (preamble != [] ==> preamble[|preamble| - 1] == 10)
  }

  /** No NUL, no empty line inside, shorter than the buffer with the CR LF before it; only a file part's
      headers say `filename="`; the delimiter is not in the data. */
  ghost predicate PartOk(p: Part, delimiter: seq<byte>) {
    && |Header(p)| + 2 < HEADER_BUFFER
    && (forall i :: 0 <= i < |Header(p)| ==> Header(p)[i] != 0)
    && Absent(Crlf() + Header(p) + Crlf(), EmptyLine())
    && (p.FieldPart? ==> Absent(Header(p), FilenameText()))
    && Absent(p.data, delimiter)
  }

  ghost predicate PartsOk(parts: seq<Part>, delimiter: seq<byte>) {
    forall i :: 0 <= i < |parts| ==> PartOk(parts[i], delimiter)
  }

  // --- searching in printed text ---

  /** A needle without CR and LF does not straddle a line end. */
  lemma FoundAfterLine(line: seq<byte>, needle: seq<byte>, tail: seq<byte>)
    requires DelimiterOk(needle) && Absent(line, needle)
    requires line != [] ==> line[|line| - 1] == 10
    ensures Find(line + needle + tail, needle) == Some(|line|)
  {
    var hay := line + needle + tail;
    assert Occurs(hay, needle, |line|);
    forall j: nat | j < |line|
      ensures !Occurs(hay, needle, j)
    {
      NoStraddle(line, needle, needle + tail, j);
      assert hay == line + (needle + tail);
    }
    FoundAt(hay, needle, |line|);
  }

  lemma OccursAt(hay: seq<byte>, needle: seq<byte>, j: nat, k: nat)
    requires Occurs(hay, needle, j) && k < |needle|
    ensures j + k < |hay| && hay[j + k] == needle[k]
  {
  }

  lemma OccursBefore(hay: seq<byte>, line: seq<byte>, needle: seq<byte>, j: nat)
    requires Occurs(hay, needle, j) && line <= hay && j + |needle| <= |line|
    ensures Occurs(line, needle, j)
  {
  }

  lemma NoStraddle(line: seq<byte>, needle: seq<byte>, tail: seq<byte>, j: nat)
    requires DelimiterOk(needle) && Absent(line, needle)
    requires j < |line| && line[|line| - 1] == 10
    ensures !Occurs(line + tail, needle, j)
  {
    hide Occurs;
    var hay := line + tail;
    if Occurs(hay, needle, j) {
      if j + |needle| <= |line| {
        OccursBefore(hay, line, needle, j);
      } else {
        OccursAt(hay, needle, j, |line| - 1 - j);
      }
    }
  }

  /** Data and its CR LF hold no delimiter if the data hold none. */
  lemma AbsentWithCrlf(data: seq<byte>, needle: seq<byte>)
    requires DelimiterOk(needle) && Absent(data, needle)
    ensures Absent(data + Crlf(), needle)
  {
    hide Occurs;
    var hay := data + Crlf();
    forall j: nat
      ensures !Occurs(hay, needle, j)
    {
      if Occurs(hay, needle, j) {
        if j + |needle| <= |data| {
          OccursBefore(hay, data, needle, j);
        } else {
          OccursAt(hay, needle, j, |needle| - 1);
        }
      }
    }
  }

  /** The headers end at the first empty line. */
  lemma HeaderEnd(header: seq<byte>, tail: seq<byte>)
    requires Absent(header + Crlf(), EmptyLine())
    ensures Find(header + EmptyLine() + tail, EmptyLine()) == Some(|header|)
  {
    var hay := header + EmptyLine() + tail;
    assert Occurs(hay, EmptyLine(), |header|);
    forall j: nat | j < |header|
      ensures !Occurs(hay, EmptyLine(), j)
    {
      NotInHeader(header, tail, j);
    }
    FoundAt(hay, EmptyLine(), |header|);
  }

  lemma NotInHeader(header: seq<byte>, tail: seq<byte>, j: nat)
    requires Absent(header + Crlf(), EmptyLine()) && j < |header|
    ensures !Occurs(header + EmptyLine() + tail, EmptyLine(), j)
  {
    hide Occurs;
    var hay := header + EmptyLine() + tail;
    if Occurs(hay, EmptyLine(), j) {
      if j + 4 <= |header| + 2 {
        assert hay == header + Crlf() + (Crlf() + tail);
        OccursBefore(hay, header + Crlf(), EmptyLine(), j);
      } else {
        OccursAt(hay, EmptyLine(), j, 3);
      }
    }
  }

  // --- one pass of the loop ---

  lemma NextPartIs(rest: seq<byte>, delimiter: seq<byte>, before: seq<byte>, header: seq<byte>, data: seq<byte>,
                   after: seq<byte>)
    requires var d := data + after; var q := header + EmptyLine() + d;
             && rest == before + delimiter + q
             && Find(rest, delimiter) == Some(|before|)
             && Find(q, EmptyLine()) == Some(|header|)
             && Find(d, delimiter) == Some(|data|)
    requires header != [] && header[0] != 45
    ensures NextPart(rest, delimiter) == Some(Found(header, data, after))
  {
    hide Find;
    var d := data + after;
    var q := header + EmptyLine() + d;
    assert rest[|before| + |delimiter|..] == q;
    assert q[..|header|] == header && q[|header| + 4..] == d && q[0] == header[0];
    assert d[..|data|] == data && d[|data|..] == after;
  }

  /** From a delimiter and a printed part, the pass finds that part and stops at the next delimiter. */
  lemma PassFindsPart(before: seq<byte>, p: Part, after: seq<byte>, delimiter: seq<byte>)
    requires DelimiterOk(delimiter) && PreambleOk(before, delimiter) && PartOk(p, delimiter)
    ensures NextPart(before + delimiter + (Crlf() + Header(p) + EmptyLine() + p.data + Crlf() + delimiter + after),
              delimiter)
         == Some(Found(Crlf() + Header(p), p.data + Crlf(), delimiter + after))
  {
    hide Find, Header, Absent, NextPart;
    var header := Crlf() + Header(p);
    var data := p.data + Crlf();
    var d := data + delimiter + after;
    var q := header + EmptyLine() + d;
    FoundAfterLine(before, delimiter, q);
    HeaderEnd(header, d);
    AbsentWithCrlf(p.data, delimiter);
    FoundAfterLine(data, delimiter, after);
    assert d == data + (delimiter + after);
    NextPartIs(before + delimiter + q, delimiter, before, header, data, delimiter + after);
    assert q == Crlf() + Header(p) + EmptyLine() + p.data + Crlf() + delimiter + after;
  }

  lemma PassFindsEnd(before: seq<byte>, epilogue: seq<byte>, delimiter: seq<byte>)
    requires DelimiterOk(delimiter) && PreambleOk(before, delimiter)
    ensures NextPart(before + delimiter + ([45, 45] + epilogue), delimiter).None?
  {
    hide Find, Absent;
    var q := [45, 45] + epilogue;
    FoundAfterLine(before, delimiter, q);
    assert (before + delimiter + q)[|before| + |delimiter|..] == q;
  }

  // --- what a printed header says ---

  function PartKind(p: Part): Kind {
    if p.FilePart? then File else NameKind(p.name)
  }

  lemma {:induction false} StrWhole(s: seq<byte>)
    requires forall i :: 0 <= i < |s| ==> s[i] != 0
    ensures Str(s) == s
  {
    if s != [] {
      StrWhole(s[1..]);
    }
  }

  /** Before its closing quote, the fixed start of a header has only the one that ends `name="`. */
  lemma StartQuotes(i: nat)
    requires i < 37
    ensures DispositionStart()[i] != 34
  {
  }

  lemma NameFound(header: seq<byte>)
    requires DispositionStart() <= header
    ensures Find(header, NameText()) == Some(32)
  {
    hide Find, Occurs, DispositionStart;
    assert Occurs(header, NameText(), 32) by { StartNames(header); }
    forall j: nat | j < 32
      ensures !Occurs(header, NameText(), j)
    {
      if Occurs(header, NameText(), j) {
        StartQuotes(j + 5);
        OccursAt(header, NameText(), j, 5);
      }
    }
    FoundAt(header, NameText(), 32);
  }

  lemma StartNames(header: seq<byte>)
    requires DispositionStart() <= header
    ensures Occurs(header, NameText(), 32)
  {
  }

  lemma DispositionFound(header: seq<byte>)
    requires DispositionStart() <= header
    ensures Find(Crlf() + header, DispositionText()) == Some(2)
  {
    hide Find, FindFrom, DispositionStart;
    var raw := Crlf() + header;
    assert Occurs(raw, DispositionText(), 2) by {
      StartDisposes();
      assert raw[2..22] == header[..20] == DispositionStart()[..20];
    }
    hide Occurs;
    forall j: nat | j < 2
      ensures !Occurs(raw, DispositionText(), j)
    {
      if Occurs(raw, DispositionText(), j) {
        OccursAt(raw, DispositionText(), j, 0);
      }
    }
    FoundAt(raw, DispositionText(), 2);
  }

  lemma StartDisposes()
    ensures DispositionStart()[..20] == DispositionText()
  {
  }

  /** The quote that ends a name keeps what follows from counting as its beginning. */
  lemma NameEnds(name: seq<byte>, text: seq<byte>, rest: seq<byte>)
    requires 34 !in text
    ensures text <= name + [34] + rest <==> text <= name
  {
    var s := name + [34] + rest;
    if |text| <= |name| {
      assert s[..|text|] == name[..|text|];
    } else {
      assert s[|name|] == 34;
    }
  }

  lemma NameKindEnds(name: seq<byte>, rest: seq<byte>)
    ensures NameKind(name + [34] + rest) == NameKind(name)
  {
    NameEnds(name, TitleText(), rest);
    NameEnds(name, DescriptionText(), rest);
  }

  /** The parser takes a printed header for what it was printed from. */
  lemma KindRead(p: Part, delimiter: seq<byte>)
    requires PartOk(p, delimiter)
    ensures KindOf(Crlf() + Header(p)) == PartKind(p)
  {
    hide Find, FindFrom, Occurs, NameKind, DispositionText, Absent;
    var header := Header(p);
    var raw := Crlf() + header;
    StrWhole(raw);
    HeaderStarts(p);
    DispositionFound(header);
    assert raw[2..] == header;
    NameFound(header);
    if p.FilePart? {
      FileNamed(p);
      FoundNone(header, FilenameText());
    } else {
      FoundNone(header, FilenameText());
      FieldNamed(p);
      NameKindEnds(p.name, p.extra);
    }
  }

  /** A part with a file name is the file; a field is the title or the description as its name begins. */
  lemma KindIsName(p: Part, delimiter: seq<byte>)
    requires PartOk(p, delimiter)
    ensures var kind := KindOf(Crlf() + Header(p));
      && (kind == File <==> p.FilePart?)
      && (kind == Title <==> p.FieldPart? && |p.name| >= 5 && Spells(p.name[..5], "title"))
      && (kind == Description <==> p.FieldPart? && |p.name| >= 11 && Spells(p.name[..11], "description"))
  {
    hide KindOf, Header, PartOk, TitleText, DescriptionText, Crlf;
    KindRead(p, delimiter);
    NotBoth(p.name);
    BeginsIff(p.name, TitleText(), "title");
    BeginsIff(p.name, DescriptionText(), "description");
  }

  lemma BeginsIff(name: seq<byte>, text: seq<byte>, spelled: string)
    requires Spells(text, spelled)
    ensures text <= name <==> |name| >= |spelled| && Spells(name[..|spelled|], spelled)
  {
    if |name| >= |spelled| && Spells(name[..|spelled|], spelled) {
      assert forall i | 0 <= i < |text| :: name[..|spelled|][i] as char == text[i] as char;
    }
    if text <= name {
      assert name[..|spelled|] == text;
    }
  }

  lemma NotBoth(name: seq<byte>)
    ensures Spells(TitleText(), "title") && Spells(DescriptionText(), "description")
    ensures !(TitleText() <= name && DescriptionText() <= name)
  {
    Texts();
    assert TitleText()[0] != DescriptionText()[0];
  }

  lemma HeaderStarts(p: Part)
    ensures DispositionStart() <= Header(p)
  {
  }

  lemma FieldNamed(p: Part)
    requires p.FieldPart?
    ensures Header(p)[38..] == p.name + [34] + p.extra
  {
  }

  lemma FileNamed(p: Part)
    requires p.FilePart?
    ensures !Absent(Header(p), FilenameText())
  {
    hide DispositionStart, FilenameText;
    var left := DispositionStart() + p.name + [34, 59, 32];
    assert Header(p) == left + FilenameText() + (p.filename + [34] + p.extra);
    assert Occurs(Header(p), FilenameText(), |left|);
  }

  lemma TrimPrinted(data: seq<byte>)
    ensures Trim(data + Crlf()) == data
  {
  }

  // --- the round trip ---

  /** What a form is after its parts, one after the other. */
  function Fold(parts: seq<Part>, form: Form, limits: Limits): Form
  {
    if parts == [] then form else Fold(parts[1..], Store(form, PartKind(parts[0]), parts[0].data, limits), limits)
  }

  lemma {:induction false} ParseIsFold(before: seq<byte>, parts: seq<Part>, epilogue: seq<byte>, delimiter: seq<byte>,
                                       form: Form, limits: Limits)
    requires DelimiterOk(delimiter) && PreambleOk(before, delimiter) && PartsOk(parts, delimiter)
    ensures Parse(Print(before, parts, epilogue, delimiter), delimiter, form, limits) == Fold(parts, form, limits)
    decreases |parts|
  {
    hide NextPart, Header, KindOf, PartKind, Store, Trim, PartOk;
    var body := Print(before, parts, epilogue, delimiter);
    if parts == [] {
      assert body == before + delimiter + ([45, 45] + epilogue);
      PassFindsEnd(before, epilogue, delimiter);
    } else {
      var p := parts[0];
      var after := PrintTail(parts[1..], delimiter) + epilogue;
      assert body == before + delimiter + (Crlf() + Header(p) + EmptyLine() + p.data + Crlf() + delimiter + after);
      PassFindsPart(before, p, after, delimiter);
      KindRead(p, delimiter);
      TrimPrinted(p.data);
      var rest := parts[1..];
      assert PartsOk(rest, delimiter);
      assert delimiter + after == Print([], rest, epilogue, delimiter);
      NothingBefore(delimiter);
      ParseIsFold([], rest, epilogue, delimiter, Store(form, PartKind(p), p.data, limits), limits);
    }
  }

  lemma NothingBefore(delimiter: seq<byte>)
    requires DelimiterOk(delimiter)
    ensures PreambleOk([], delimiter)
  {
  }

  /** The data of the last part of a kind. */
  function Last(parts: seq<Part>, kind: Kind): Option<seq<byte>> {
    if parts == [] then None
    else
      var later := Last(parts[1..], kind);
      if later.Some? then later else if PartKind(parts[0]) == kind then Some(parts[0].data) else None
  }

  /** The length of the last file part that is not empty. */
  function LastLength(parts: seq<Part>): (n: nat)
    ensures n > 0 ==> Last(parts, File).Some?
  {
    if parts == [] then 0
    else
      var later := LastLength(parts[1..]);
      if later > 0 then later else if PartKind(parts[0]) == File then |parts[0].data| else 0
  }

  function Stored(data: Option<seq<byte>>, form: Form, limits: Limits): Option<seq<byte>> {
    if data.None? then form.file else if data.value == [] && !limits.mallocZero then None else data
  }

  lemma {:induction false} FoldKeepsLast(parts: seq<Part>, form: Form, limits: Limits)
    ensures var f := Fold(parts, form, limits);
            && f.file == Stored(Last(parts, File), form, limits)
            && f.fileLen == (if LastLength(parts) > 0 then LastLength(parts) else form.fileLen)
            && f.title == (if Last(parts, Title).Some? then Cut(Last(parts, Title).value, limits.title) else form.title)
            && f.desc
               == (if Last(parts, Description).Some? then Cut(Last(parts, Description).value, limits.desc) else form.desc)
  {
    hide PartKind, Cut;
    if parts != [] {
      FoldKeepsLast(parts[1..], Store(form, PartKind(parts[0]), parts[0].data, limits), limits);
    }
  }

  /** Parsing a printed form gives the last title and the last description, each cut to its buffer, the last
      file, and the length of the last file that is not empty. */
  lemma RoundTrip(preamble: seq<byte>, parts: seq<Part>, epilogue: seq<byte>, delimiter: seq<byte>, limits: Limits)
    requires DelimiterOk(delimiter) && PreambleOk(preamble, delimiter) && PartsOk(parts, delimiter)
    ensures var f := Parse(Print(preamble, parts, epilogue, delimiter), delimiter, EMPTY_FORM, limits);
            && f.title == (if Last(parts, Title).Some? then Cut(Last(parts, Title).value, limits.title) else [])
            && f.desc == (if Last(parts, Description).Some? then Cut(Last(parts, Description).value, limits.desc) else [])
            && f.file == Stored(Last(parts, File), EMPTY_FORM, limits)
            && f.fileLen == LastLength(parts)
  {
    hide Parse, Fold, Cut, Last, LastLength;
    ParseIsFold(preamble, parts, epilogue, delimiter, EMPTY_FORM, limits);
    FoldKeepsLast(parts, EMPTY_FORM, limits);
  }

  /** The parser reports success with the length of the buffer it returns iff the last file is not empty. */
  lemma FileIffLastNotEmpty(preamble: seq<byte>, parts: seq<Part>, epilogue: seq<byte>, delimiter: seq<byte>,
                            limits: Limits)
    requires DelimiterOk(delimiter) && PreambleOk(preamble, delimiter) && PartsOk(parts, delimiter)
    ensures var f := Parse(Print(preamble, parts, epilogue, delimiter), delimiter, EMPTY_FORM, limits);
            var last := Last(parts, File);
            && ((Accepted(f) && f.fileLen == |f.file.value|) <==> (last.Some? && last.value != []))
            && (last.Some? && last.value != [] ==> f.file == last)
  {
    hide Parse, Last, LastLength, Print;
    RoundTrip(preamble, parts, epilogue, delimiter, limits);
    LengthOfLast(parts);
  }

  lemma {:induction false} LengthOfLast(parts: seq<Part>)
    ensures var last := Last(parts, File); last.Some? && last.value != [] ==> LastLength(parts) == |last.value|
  {
    hide PartKind;
    if parts != [] {
      LengthOfLast(parts[1..]);
    }
  }

  // --- a form whose last file is empty ---

  function TwoFiles(): seq<Part> {
    [FilePart([], [], [], [120]), FilePart([], [], [], [])]
  }

  lemma OneLine(header: seq<byte>)
    requires header != [] && forall i :: 0 <= i < |header| ==> header[i] >= 32
    ensures Absent(Crlf() + header + Crlf(), EmptyLine())
  {
    hide Occurs;
    var hay := Crlf() + header + Crlf();
    forall j: nat
      ensures !Occurs(hay, EmptyLine(), j)
    {
      if Occurs(hay, EmptyLine(), j) {
        OccursAt(hay, EmptyLine(), j, 0);
        OccursAt(hay, EmptyLine(), j, 2);
        OccursAt(hay, EmptyLine(), j, 3);
      }
    }
  }

  lemma FixedTextVisible()
    ensures forall i :: 0 <= i < 38 ==> DispositionStart()[i] >= 32
    ensures forall i :: 0 <= i < 10 ==> FilenameText()[i] >= 32
  {
  }

  lemma BareHeader(data: seq<byte>)
    ensures var h := Header(FilePart([], [], [], data)); |h| == 52 && forall i :: 0 <= i < |h| ==> h[i] >= 32
  {
    hide DispositionStart, FilenameText;
    FixedTextVisible();
  }

  lemma BarePartOk(data: seq<byte>, delimiter: seq<byte>)
    requires |data| <= 1 && |delimiter| > 1
    ensures PartOk(FilePart([], [], [], data), delimiter)
  {
    hide Header, Occurs;
    BareHeader(data);
    OneLine(Header(FilePart([], [], [], data)));
    forall j: nat
      ensures !Occurs(data, delimiter, j)
    {
      if Occurs(data, delimiter, j) {
        OccursAt(data, delimiter, j, 1);
      }
    }
  }

  lemma TwoFilesOk(delimiter: seq<byte>)
    requires |delimiter| > 1
    ensures PartsOk(TwoFiles(), delimiter)
  {
    hide PartOk;
    BarePartOk([120], delimiter);
    BarePartOk([], delimiter);
  }

  /** After a file of one byte, an empty file is reported as accepted with length 1 and an empty buffer. */
  lemma StaleLength(delimiter: seq<byte>)
    requires DelimiterOk(delimiter) && |delimiter| > 1
    ensures PartsOk(TwoFiles(), delimiter)
    ensures var f := Parse(Print([], TwoFiles(), [], delimiter), delimiter, EMPTY_FORM, Limits(128, 256, true));
            Accepted(f) && f.file == Some([]) && f.fileLen == 1
  {
    hide Parse, Print, PartsOk;
    TwoFilesOk(delimiter);
    NothingBefore(delimiter);
    RoundTrip([], TwoFiles(), [], delimiter, Limits(128, 256, true));
    LastOfTwo();
  }

  lemma LastOfTwo()
    ensures Last(TwoFiles(), File) == Some([]) && LastLength(TwoFiles()) == 1
  {
  }

  // --- a field whose name only begins with a known one ---

  /** A field named "titlex" is a valid field, and is read as the title. */
  lemma LongerNameIsTitle(delimiter: seq<byte>)
    requires |delimiter| > 1
    ensures var p := FieldPart(TitleText() + [120], [], []);
      PartOk(p, delimiter) && KindOf(Crlf() + Header(p)) == Title
  {
    hide PartOk, KindOf;
    var p := FieldPart(TitleText() + [120], [], []);
    LongerNameOk(delimiter);
    KindRead(p, delimiter);
  }

  lemma LongerNameHeader()
    ensures var h := Header(FieldPart(TitleText() + [120], [], []));
      |h| == 45 && (forall i :: 0 <= i < |h| ==> h[i] >= 32) && (forall i :: 0 <= i < 45 && i != 37 && i != 44 ==> h[i] != 34)
  {
    hide DispositionStart;
    FixedTextVisible();
    forall i | 0 <= i < 37
      ensures DispositionStart()[i] != 34
    {
      StartQuotes(i);
    }
  }

  lemma LongerNameOk(delimiter: seq<byte>)
    requires |delimiter| > 1
    ensures PartOk(FieldPart(TitleText() + [120], [], []), delimiter)
  {
    hide Header, Occurs;
    var h := Header(FieldPart(TitleText() + [120], [], []));
    LongerNameHeader();
    OneLine(h);
    forall j: nat
      ensures !Occurs(h, FilenameText(), j)
    {
      if Occurs(h, FilenameText(), j) {
        OccursAt(h, FilenameText(), j, 9);
        OccursAt(h, FilenameText(), j, 0);
        LongerNameLetters();
      }
    }
    forall j: nat
      ensures !Occurs([], delimiter, j)
    {
      if Occurs([], delimiter, j) {
        OccursAt([], delimiter, j, 1);
      }
    }
  }

  /** Nine places before each of its quotes there is no 'f'. */
  lemma LongerNameLetters()
    ensures var h := Header(FieldPart(TitleText() + [120], [], [])); |h| == 45 && h[28] != 102 && h[35] != 102
  {
  }
}
