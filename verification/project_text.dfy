/** The text each rule of the PROJECT-stream grammar reads, written out, and
    the lemmas that a well-formed project written this way is read back by
    `ProjectRecord.ParseProject`. The program never writes a whole stream;
    these writers are the partners against which the grammar is checked.
    Each writer is given the text that follows what it writes, so that the
    written stream is one right-nested concatenation. */
module ProjectText {
  import opened Bytes
  import opened Nom
  import Radix
  import Utf8
  import Guid
  import HexInt32
  import Int32
  import ModuleIdentifier
  import NewLine
  import Path
  import QuotedCharacters
  import HexDigits
  import DataEncryption
  import Fields
  import opened ProjectRecord

  const CRLF: Bytes := NewLine.CRLF

  /** The first bytes of the item tags `Document=`, `Module=`, `Class=`,
      `BaseClass=` and `Package=`. */
  predicate StartsItem(b: byte)
  {
    b == DOCUMENT[0] || b == MODULE[0] || b == CLASS[0] || b == BASE_CLASS[0] || b == PACKAGE[0]
  }

  /** A tag whose first byte differs from the input's is not read. */
  lemma TagMisses(t: Bytes, s: Bytes)
    requires |t| > 0 && |s| > 0 && t[0] != s[0]
    ensures Tag(t, s) == Failed(s)
  {
  }

  lemma Associative(a: Bytes, b: Bytes, c: Bytes)
    ensures a + b + c == a + (b + c)
  {
  }

  lemma SmallMod(a: int, m: int)
    requires 0 <= a < m
    ensures a % m == a
  {
  }

  // Values

  /** `&H` and eight upper-case hex digits of the 32-bit pattern. */
  function HexText(n: int): Bytes
  {
    HexInt32.PREFIX + Radix.Digits(n % 0x1_0000_0000, HexInt32.WIDTH, true)
  }

  lemma HexTextRead(n: int, rest: Bytes)
    requires 0 <= n <= Radix.I32.max
    ensures HexInt32.Parse(HexText(n) + rest) == Parsed(n, rest)
  {
    SmallMod(n, 0x1_0000_0000);
    HexInt32.ParseWritten(n, rest);
  }

  /** The braced GUID text of the 128-bit pattern. */
  function GuidText(g: int): Bytes
  {
    Guid.Text(g % (Radix.U128.max + 1))
  }

  lemma GuidTextRead(g: int, rest: Bytes)
    requires 0 <= g <= Radix.U128.max
    ensures Guid.Parse(GuidText(g) + rest) == Parsed(g, rest)
  {
    SmallMod(g, Radix.U128.max + 1);
    Guid.ParseWritten(g, rest);
  }

  /** Text between double quotes, its own quotes doubled. */
  function Quoted(s: Bytes): Bytes
  {
    [QuotedCharacters.DQUOTE] + QuotedCharacters.Escape(s) + [QuotedCharacters.DQUOTE]
  }

  /** A module name the grammar reads whole: an identifier of at most 31
      bytes. */
  predicate ValidName(name: Bytes)
  {
    ModuleIdentifier.IsIdentifier(name) && |name| <= ModuleIdentifier.MAX_LENGTH
  }

  lemma NameRead(name: Bytes, rest: Bytes)
    requires ValidName(name) && |rest| > 0 && !ModuleIdentifier.IsTailByte(rest[0])
    ensures ModuleIdentifier.Parse(name + rest) == Parsed(name, rest)
  {
    ModuleIdentifier.ParseWritten(name, rest);
  }

  // Id and items

  function IdLine(id: int, rest: Bytes): Bytes
  {
    ID_TAG + (GuidText(id) + ([DQUOTE] + (CRLF + rest)))
  }

  /** The project id line reads back its GUID. */
  lemma IdRead(id: int, rest: Bytes)
    requires 0 <= id <= Radix.U128.max
    ensures ParseId(IdLine(id, rest)) == Parsed(id, rest)
  {
    var r1 := [DQUOTE] + (CRLF + rest);
    TagWritten(ID_TAG, GuidText(id) + r1);
    GuidTextRead(id, r1);
    TagWritten([DQUOTE], CRLF + rest);
    NewLine.ParseWritten(CRLF, rest);
  }

  function ModuleText(m: Module): Bytes
  {
    match m
    case Doc(name, version) => DOCUMENT + (name + ([SLASH] + HexText(version)))
    case Std(name) => MODULE + name
    case Class(name) => CLASS + name
    case Designer(name) => BASE_CLASS + name
  }

  function ItemText(it: Item): Bytes
  {
    match it
    case ModuleItem(m) => ModuleText(m)
    case Package(guid) => PACKAGE + GuidText(guid)
  }

  /** An item the grammar can carry: a valid name, a document's type-library
      version a non-negative `i32`, a package GUID a `u128`. */
  predicate WellFormedItem(it: Item)
  {
    match it
    case ModuleItem(m) => ValidName(m.name) && (m.Doc? ==> 0 <= m.tlibVersion <= Radix.I32.max)
    case Package(guid) => 0 <= guid <= Radix.U128.max
  }

  /** Each kind of item is read back by the alternative for its tag, the
      ones before it failing on the first byte. */
  lemma ItemRead(it: Item, rest: Bytes)
    requires WellFormedItem(it)
    requires |rest| > 0 && !ModuleIdentifier.IsTailByte(rest[0])
    ensures ParseItem(ItemText(it) + rest) == Parsed(it, rest)
  {
    var input := ItemText(it) + rest;
    match it
    case ModuleItem(m) =>
      match m {
        case Doc(name, version) =>
          var h := HexText(version);
          Associative(DOCUMENT, name + ([SLASH] + h), rest);
          Associative(name, [SLASH] + h, rest);
          Associative([SLASH], h, rest);
          var r1 := [SLASH] + (h + rest);
          assert input == DOCUMENT + (name + r1);
          TagWritten(DOCUMENT, name + r1);
          NameRead(name, r1);
          TagWritten([SLASH], h + rest);
          HexTextRead(version, rest);
        case Std(name) =>
          Associative(MODULE, name, rest);
          TagMisses(DOCUMENT, input);
          TagWritten(MODULE, name + rest);
          NameRead(name, rest);
        case Class(name) =>
          Associative(CLASS, name, rest);
          TagMisses(DOCUMENT, input);
          TagMisses(MODULE, input);
          TagWritten(CLASS, name + rest);
          NameRead(name, rest);
        case Designer(name) =>
          Associative(BASE_CLASS, name, rest);
          TagMisses(DOCUMENT, input);
          TagMisses(MODULE, input);
          TagMisses(CLASS, input);
          TagWritten(BASE_CLASS, name + rest);
          NameRead(name, rest);
      }
    case Package(guid) =>
      Associative(PACKAGE, GuidText(guid), rest);
      TagMisses(DOCUMENT, input);
      TagMisses(MODULE, input);
      TagMisses(CLASS, input);
      TagMisses(BASE_CLASS, input);
      TagWritten(PACKAGE, GuidText(guid) + rest);
      GuidTextRead(guid, rest);
  }

  /** Input that does not start with the first byte of an item tag is not
      an item. */
  lemma ItemRejected(input: Bytes)
    requires |input| == 0 || !StartsItem(input[0])
    ensures ParseItem(input).Failed?
  {
    if |input| > 0 {
      TagMisses(DOCUMENT, input);
      TagMisses(MODULE, input);
      TagMisses(CLASS, input);
      TagMisses(BASE_CLASS, input);
      TagMisses(PACKAGE, input);
    }
  }

  /** The items, a line break after each; no items is a blank line. */
  function ItemsText(items: seq<Item>, rest: Bytes): Bytes
  {
    Join(ItemText, CRLF, items) + (CRLF + rest)
  }

  lemma LineBreakSeparates()
    ensures ReadsSeparator(NewLine.Parse, CRLF)
  {
    forall t ensures NewLine.Parse(CRLF + t).Parsed? && NewLine.Parse(CRLF + t).rest == t {
      NewLine.ParseWritten(CRLF, t);
    }
  }

  lemma ItemsReadBefore(items: seq<Item>)
    requires forall i :: 0 <= i < |items| ==> WellFormedItem(items[i])
    ensures ReadsBefore(ParseItem, ItemText, CRLF, items)
  {
    forall i, t | 0 <= i < |items| && CRLF <= t
      ensures ParseItem(ItemText(items[i]) + t) == Parsed(items[i], t)
    {
      assert t[0] == NewLine.CR;
      ItemRead(items[i], t);
    }
  }

  lemma ItemsSeparated(items: seq<Item>, rest: Bytes)
    requires forall i :: 0 <= i < |items| ==> WellFormedItem(items[i])
    requires |rest| == 0 || !StartsItem(rest[0])
    ensures Shortening(NewLine.Parse) && Shortening(ParseItem)
    ensures SeparatedList0(NewLine.Parse, ParseItem, ItemsText(items, rest)) == Parsed(items, CRLF + rest)
  {
    NewLine.ParseShortens();
    ItemShortens();
    LineBreakSeparates();
    ItemsReadBefore(items);
    ItemRejected(CRLF + rest);
    ItemRejected(rest);
    SeparatedWritten(NewLine.Parse, ParseItem, ItemText, CRLF, items, rest);
  }

  /** Well-formed items written one per line are read back, the line break
      after the last one included, when the next line is not an item. */
  lemma ItemsRead(items: seq<Item>, rest: Bytes)
    requires forall i :: 0 <= i < |items| ==> WellFormedItem(items[i])
    requires |rest| == 0 || !StartsItem(rest[0])
    ensures ParseItems(ItemsText(items, rest)) == Parsed(items, rest)
  {
    ItemsSeparated(items, rest);
    NewLine.ParseWritten(CRLF, rest);
  }

  // Help file, executable name, name, help context, description

  /** A path the grammar reads whole: at most `MAX_PATH` bytes of quoted
      text. */
  predicate ValidPath(path: Bytes)
  {
    |path| <= Path.MAX_PATH && QuotedCharacters.AllText(path)
  }

  function HelpFileLine(path: Bytes, rest: Bytes): Bytes
  {
    HELP_FILE + (Quoted(path) + (CRLF + rest))
  }

  lemma HelpFileRead(path: Bytes, rest: Bytes)
    requires ValidPath(path)
    ensures ParseHelpFile(HelpFileLine(path, rest)) == Parsed(path, rest)
  {
    TagWritten(HELP_FILE, Quoted(path) + (CRLF + rest));
    Path.ParseWritten(path, CRLF + rest);
    NewLine.ParseWritten(CRLF, rest);
  }

  function ExeNameLine(path: Bytes, rest: Bytes): Bytes
  {
    EXE_NAME_32 + (Quoted(path) + (CRLF + rest))
  }

  lemma ExeNameRead(path: Bytes, rest: Bytes)
    requires ValidPath(path)
    ensures ParseExeName32(ExeNameLine(path, rest)) == Parsed(path, rest)
  {
    TagWritten(EXE_NAME_32, Quoted(path) + (CRLF + rest));
    Path.ParseWritten(path, CRLF + rest);
    NewLine.ParseWritten(CRLF, rest);
  }

  /** A project name the grammar reads whole: 1 to 128 bytes of quoted
      text. */
  predicate ValidProjectName(name: Bytes)
  {
    1 <= |name| <= 128 && QuotedCharacters.AllText(name)
  }

  function NameLine(name: Bytes, rest: Bytes): Bytes
  {
    NAME + (Quoted(name) + (CRLF + rest))
  }

  lemma NameLineRead(name: Bytes, rest: Bytes)
    requires ValidProjectName(name)
    ensures ParseName(NameLine(name, rest)) == Parsed(name, rest)
  {
    TagWritten(NAME, Quoted(name) + (CRLF + rest));
    QuotedCharacters.ParseWritten(1, 128, name, CRLF + rest);
    NewLine.ParseWritten(CRLF, rest);
  }

  function HelpIdLine(id: int, rest: Bytes): Bytes
  {
    HELP_CONTEXT_ID + (Int32.DecimalText(id) + ([DQUOTE] + (CRLF + rest)))
  }

  lemma HelpIdRead(id: int, rest: Bytes)
    requires Radix.I32.min <= id <= Radix.I32.max
    ensures ParseHelpId(HelpIdLine(id, rest)) == Parsed(id, rest)
  {
    var r1 := [DQUOTE] + (CRLF + rest);
    TagWritten(HELP_CONTEXT_ID, Int32.DecimalText(id) + r1);
    Int32.ParseWritten(id, r1);
    TagWritten([DQUOTE], CRLF + rest);
    NewLine.ParseWritten(CRLF, rest);
  }

  /** A description the grammar reads whole: up to 2000 bytes of quoted
      text. */
  predicate ValidDescription(text: Bytes)
  {
    |text| <= 2000 && QuotedCharacters.AllText(text)
  }

  function DescriptionLine(text: Bytes, rest: Bytes): Bytes
  {
    DESCRIPTION + (Quoted(text) + (CRLF + rest))
  }

  lemma DescriptionRead(text: Bytes, rest: Bytes)
    requires ValidDescription(text)
    ensures ParseDescription(DescriptionLine(text, rest)) == Parsed(text, rest)
  {
    TagWritten(DESCRIPTION, Quoted(text) + (CRLF + rest));
    QuotedCharacters.ParseWritten(0, 2000, text, CRLF + rest);
    NewLine.ParseWritten(CRLF, rest);
  }

  /** The compatibility line when present. */
  function CompatText(present: bool, rest: Bytes): Bytes
  {
    if present then VERSION_COMPATIBLE_32 + (CRLF + rest) else rest
  }

  /** An optional line: nothing when the value is absent. */
  function OptLine(line: (Bytes, Bytes) -> Bytes, v: Option<Bytes>, rest: Bytes): Bytes
  {
    match v
    case None => rest
    case Some(x) => line(x, rest)
  }

  // Encrypted fields

  /** The tag, the encrypted bytes as upper-case hex, a closing quote. */
  function EncryptedLine(tag: Bytes, encrypted: Bytes, rest: Bytes): Bytes
  {
    tag + (HexString(encrypted, true) + ([DQUOTE] + (CRLF + rest)))
  }

  /** The frame reads back the encrypted bytes when their count is within
      the field's bounds. */
  lemma EncryptedRead(tag: Bytes, min: nat, max: nat, encrypted: Bytes, rest: Bytes)
    requires min / 2 <= |encrypted| <= max / 2
    ensures ParseEncrypted(tag, min, max, EncryptedLine(tag, encrypted, rest)) == Parsed(encrypted, rest)
  {
    var r1 := [DQUOTE] + (CRLF + rest);
    TagWritten(tag, HexString(encrypted, true) + r1);
    HexDigits.ParseHexString(min, max, encrypted, true, r1);
    TagWritten([DQUOTE], CRLF + rest);
    NewLine.ParseWritten(CRLF, rest);
  }

  /** A CMG line is read as the protection state its bytes decrypt to; if
      they do not decrypt to one, the parse fails at the start of the line. */
  lemma ProtectionLineRead(encrypted: Bytes, rest: Bytes)
    requires CMG_MIN / 2 <= |encrypted| <= CMG_MAX / 2
    ensures var line := EncryptedLine(CMG, encrypted, rest);
      ParseProtectionState(line)
        == match Fields.DecryptedProtection(DataEncryption.Decode(encrypted))
           case Ok(s) => Parsed(s, rest)
           case Err(_) => Failed(line)
  {
    EncryptedRead(CMG, CMG_MIN, CMG_MAX, encrypted, rest);
  }

  /** A DPB line is read as the password its bytes decrypt to, or fails at
      the start of the line. */
  lemma PasswordLineRead(encrypted: Bytes, rest: Bytes)
    requires DPB_MIN / 2 <= |encrypted| <= DPB_MAX / 2
    ensures var line := EncryptedLine(DPB, encrypted, rest);
      ParsePassword(line)
        == match Fields.DecryptedPassword(DataEncryption.Decode(encrypted))
           case Ok(pw) => Parsed(pw, rest)
           case Err(_) => Failed(line)
  {
    EncryptedRead(DPB, DPB_MIN, DPB_MAX, encrypted, rest);
  }

  /** A GC line is read as the visibility its bytes decrypt to, or fails at
      the start of the line. */
  lemma VisibilityLineRead(encrypted: Bytes, rest: Bytes)
    requires GC_MIN / 2 <= |encrypted| <= GC_MAX / 2
    ensures var line := EncryptedLine(GC, encrypted, rest);
      ParseVisibilityState(line)
        == match Fields.DecryptedVisibility(DataEncryption.Decode(encrypted))
           case Ok(v) => Parsed(v, rest)
           case Err(_) => Failed(line)
  {
    EncryptedRead(GC, GC_MIN, GC_MAX, encrypted, rest);
  }

  // Host extenders

  /** A library name the grammar reads whole. */
  predicate ValidLib(lib: Bytes)
  {
    (forall i :: 0 <= i < |lib| ==> IsLibByte(lib[i])) && Utf8.Valid(lib)
  }

  lemma LibRead(lib: Bytes, rest: Bytes)
    requires ValidLib(lib) && |rest| > 0 && !IsLibByte(rest[0])
    ensures ParseLibName(lib + rest) == Parsed(lib, rest)
  {
    var input := lib + rest;
    RunOfPrefix(IsLibByte, lib, rest, |input|);
    assert input[..|lib|] == lib && input[|lib|..] == rest;
  }

  predicate WellFormedRef(r: HostExtenderRef)
  {
    && 0 <= r.index <= Radix.I32.max
    && 0 <= r.guid <= Radix.U128.max
    && ValidLib(r.lib)
    && 0 <= r.creationFlags <= Radix.I32.max
  }

  /** `index=guid;lib;flags` and a line break. */
  function RefLine(r: HostExtenderRef, rest: Bytes): Bytes
  {
    HexText(r.index) + ([EQUALS] + (GuidText(r.guid) + ([SEMICOLON] + (r.lib
      + ([SEMICOLON] + (HexText(r.creationFlags) + (CRLF + rest)))))))
  }

  lemma RefRead(r: HostExtenderRef, rest: Bytes)
    requires WellFormedRef(r)
    ensures |RefLine(r, rest)| > |rest|
    ensures ParseHostExtenderRef(RefLine(r, rest)) == Parsed(r, rest)
  {
    var r6 := CRLF + rest;
    var r5 := HexText(r.creationFlags) + r6;
    var r4 := [SEMICOLON] + r5;
    var r3 := r.lib + r4;
    var r2 := [SEMICOLON] + r3;
    var r1 := GuidText(r.guid) + r2;
    var r0 := [EQUALS] + r1;
    HexTextRead(r.index, r0);
    TagWritten([EQUALS], r1);
    GuidTextRead(r.guid, r2);
    TagWritten([SEMICOLON], r3);
    LibRead(r.lib, r4);
    TagWritten([SEMICOLON], r5);
    HexTextRead(r.creationFlags, r6);
    NewLine.ParseWritten(CRLF, rest);
  }

  /** A blank line, the `[Host Extender Info]` heading, and the references. */
  function HostExtendersText(refs: seq<HostExtenderRef>, rest: Bytes): Bytes
  {
    CRLF + (HOST_EXTENDER_INFO + (CRLF + Chain(RefLine, refs, rest)))
  }

  lemma RefsReadOnto(refs: seq<HostExtenderRef>)
    requires forall i :: 0 <= i < |refs| ==> WellFormedRef(refs[i])
    ensures ReadsOnto(ParseHostExtenderRef, RefLine, refs)
  {
    forall i, t | 0 <= i < |refs|
      ensures |RefLine(refs[i], t)| > |t| && ParseHostExtenderRef(RefLine(refs[i], t)) == Parsed(refs[i], t)
    {
      RefRead(refs[i], t);
    }
  }

  /** The section reads back every reference, when what follows does not
      start with `&H`. */
  lemma HostExtendersRead(refs: seq<HostExtenderRef>, rest: Bytes)
    requires forall i :: 0 <= i < |refs| ==> WellFormedRef(refs[i])
    requires !(HexInt32.PREFIX <= rest)
    ensures ParseHostExtenders(HostExtendersText(refs, rest)) == Parsed(refs, rest)
  {
    var body := Chain(RefLine, refs, rest);
    NewLine.ParseWritten(CRLF, HOST_EXTENDER_INFO + (CRLF + body));
    TagWritten(HOST_EXTENDER_INFO, CRLF + body);
    NewLine.ParseWritten(CRLF, body);
    HostExtenderRefShortens();
    RefsReadOnto(refs);
    HexInt32.ParseShort(rest);
    Many0Chain(ParseHostExtenderRef, RefLine, refs, rest);
  }

  // Workspace

  function StateByte(s: WindowState): byte
  {
    match s
    case Closed => CLOSED
    case Zoomed => ZOOMED
    case Minimized => MINIMIZED
  }

  function DimText(n: int, rest: Bytes): Bytes
  {
    Int32.DecimalText(n) + (COMMA_SPACE + rest)
  }

  /** `left, top, right, bottom, state`. */
  function WindowText(w: Window, rest: Bytes): Bytes
  {
    DimText(w.left, DimText(w.top, DimText(w.right, DimText(w.bottom, [StateByte(w.state)] + rest))))
  }

  predicate WellFormedWindow(w: Window)
  {
    && Radix.I32.min <= w.left <= Radix.I32.max
    && Radix.I32.min <= w.top <= Radix.I32.max
    && Radix.I32.min <= w.right <= Radix.I32.max
    && Radix.I32.min <= w.bottom <= Radix.I32.max
  }

  lemma DimRead(n: int, rest: Bytes)
    requires Radix.I32.min <= n <= Radix.I32.max
    ensures ParseWindowDim(DimText(n, rest)) == Parsed(n, rest)
  {
    Int32.ParseWritten(n, COMMA_SPACE + rest);
    TagWritten(COMMA_SPACE, rest);
  }

  lemma StateRead(s: WindowState, rest: Bytes)
    ensures ParseWindowState([StateByte(s)] + rest) == Parsed(s, rest)
  {
    assert ([StateByte(s)] + rest)[1..] == rest;
  }

  lemma WindowRead(w: Window, rest: Bytes)
    requires WellFormedWindow(w)
    ensures ParseProjectWindow(WindowText(w, rest)) == Parsed(w, rest)
  {
    var r3 := [StateByte(w.state)] + rest;
    var r2 := DimText(w.bottom, r3);
    var r1 := DimText(w.right, r2);
    var r0 := DimText(w.top, r1);
    DimRead(w.left, r0);
    DimRead(w.top, r1);
    DimRead(w.right, r2);
    DimRead(w.bottom, r3);
    StateRead(w.state, rest);
  }

  function DesignerText(designer: Option<Window>, rest: Bytes): Bytes
  {
    match designer
    case None => rest
    case Some(w) => COMMA_SPACE + WindowText(w, rest)
  }

  /** `name=window`, optionally `, window`, and a line break. */
  function RecordLine(rec: WindowRecord, rest: Bytes): Bytes
  {
    rec.moduleName + ([EQUALS] + WindowText(rec.code, DesignerText(rec.designer, CRLF + rest)))
  }

  predicate WellFormedRecord(rec: WindowRecord)
  {
    && ValidName(rec.moduleName)
    && WellFormedWindow(rec.code)
    && (rec.designer.Some? ==> WellFormedWindow(rec.designer.value))
  }

  /** The optional designer window is read back before the line break. */
  lemma DesignerRead(designer: Option<Window>, rest: Bytes)
    requires designer.Some? ==> WellFormedWindow(designer.value)
    ensures var text := DesignerText(designer, CRLF + rest);
      Opt(ParseDesignerWindow(text), text) == Parsed(designer, CRLF + rest)
  {
    match designer
    case None =>
      TagMisses(COMMA_SPACE, CRLF + rest);
    case Some(w) =>
      TagWritten(COMMA_SPACE, WindowText(w, CRLF + rest));
      WindowRead(w, CRLF + rest);
  }

  lemma RecordRead(rec: WindowRecord, rest: Bytes)
    requires WellFormedRecord(rec)
    ensures |RecordLine(rec, rest)| > |rest|
    ensures ParseWindowRecord(RecordLine(rec, rest)) == Parsed(rec, rest)
  {
    var r2 := DesignerText(rec.designer, CRLF + rest);
    var r1 := WindowText(rec.code, r2);
    NameRead(rec.moduleName, [EQUALS] + r1);
    TagWritten([EQUALS], r1);
    WindowRead(rec.code, r2);
    DesignerRead(rec.designer, rest);
    NewLine.ParseWritten(CRLF, rest);
  }

  /** A blank line, the `[Workspace]` heading, and the window records. */
  function WorkspaceText(records: seq<WindowRecord>, rest: Bytes): Bytes
  {
    CRLF + (WORKSPACE + (CRLF + Chain(RecordLine, records, rest)))
  }

  lemma RecordsReadOnto(records: seq<WindowRecord>)
    requires forall i :: 0 <= i < |records| ==> WellFormedRecord(records[i])
    ensures ReadsOnto(ParseWindowRecord, RecordLine, records)
  {
    forall i, t | 0 <= i < |records|
      ensures |RecordLine(records[i], t)| > |t| && ParseWindowRecord(RecordLine(records[i], t)) == Parsed(records[i], t)
    {
      RecordRead(records[i], t);
    }
  }

  /** The section reads back every record, when what follows does not start
      with a letter. */
  lemma WorkspaceRead(records: seq<WindowRecord>, rest: Bytes)
    requires forall i :: 0 <= i < |records| ==> WellFormedRecord(records[i])
    requires |rest| == 0 || !IsAlpha(rest[0])
    ensures ParseWorkspace(WorkspaceText(records, rest)) == Parsed(records, rest)
  {
    var body := Chain(RecordLine, records, rest);
    NewLine.ParseWritten(CRLF, WORKSPACE + (CRLF + body));
    TagWritten(WORKSPACE, CRLF + body);
    NewLine.ParseWritten(CRLF, body);
    WindowRecordShortens();
    RecordsReadOnto(records);
    ModuleIdentifier.ParseSpec(rest);
    Many0Chain(ParseWindowRecord, RecordLine, records, rest);
  }

  function OptWorkspace(workspace: Option<seq<WindowRecord>>, rest: Bytes): Bytes
  {
    match workspace
    case None => rest
    case Some(records) => WorkspaceText(records, rest)
  }
}
