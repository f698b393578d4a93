/** The PROJECT stream of a VBA project ([MS-OVBA] section 2.3.1), read by a
    recursive-descent grammar of nom parsers: the project id, the module and
    package items, optional help file and executable name, the project name
    and help context, an optional description and compatibility line, the
    three encrypted fields, the host extenders and an optional workspace.
    Every field line ends in a line break. */
module ProjectRecord {
  import opened Bytes
  import opened Nom
  import Utf8
  import Guid
  import HexInt32
  import Int32
  import ModuleIdentifier
  import NewLine
  import Path
  import QuotedCharacters
  import HexDigits
  import DataEncryption
  import Fields

  const ID_TAG: Bytes := [0x49, 0x44, 0x3D, 0x22]  // ID="
  const DOCUMENT: Bytes := [0x44, 0x6F, 0x63, 0x75, 0x6D, 0x65, 0x6E, 0x74, 0x3D]  // Document=
  const MODULE: Bytes := [0x4D, 0x6F, 0x64, 0x75, 0x6C, 0x65, 0x3D]  // Module=
  const CLASS: Bytes := [0x43, 0x6C, 0x61, 0x73, 0x73, 0x3D]  // Class=
  const BASE_CLASS: Bytes := [0x42, 0x61, 0x73, 0x65, 0x43, 0x6C, 0x61, 0x73, 0x73, 0x3D]  // BaseClass=
  const PACKAGE: Bytes := [0x50, 0x61, 0x63, 0x6B, 0x61, 0x67, 0x65, 0x3D]  // Package=
  const HELP_FILE: Bytes := [0x48, 0x65, 0x6C, 0x70, 0x46, 0x69, 0x6C, 0x65, 0x3D]  // HelpFile=
  const EXE_NAME_32: Bytes := [0x45, 0x78, 0x65, 0x4E, 0x61, 0x6D, 0x65, 0x33, 0x32, 0x3D]  // ExeName32=
  const NAME: Bytes := [0x4E, 0x61, 0x6D, 0x65, 0x3D]  // Name=
  const HELP_CONTEXT_ID: Bytes :=  // HelpContextID="
    [0x48, 0x65, 0x6C, 0x70, 0x43, 0x6F, 0x6E, 0x74, 0x65, 0x78, 0x74, 0x49, 0x44, 0x3D, 0x22]
  const DESCRIPTION: Bytes := [0x44, 0x65, 0x73, 0x63, 0x72, 0x69, 0x70, 0x74, 0x69, 0x6F, 0x6E, 0x3D]  // Description=
  const VERSION_COMPATIBLE_32: Bytes :=  // VersionCompatible32="393222000"
    [0x56, 0x65, 0x72, 0x73, 0x69, 0x6F, 0x6E, 0x43, 0x6F, 0x6D, 0x70, 0x61, 0x74, 0x69, 0x62, 0x6C,
     0x65, 0x33, 0x32, 0x3D, 0x22, 0x33, 0x39, 0x33, 0x32, 0x32, 0x32, 0x30, 0x30, 0x30, 0x22]
  const CMG: Bytes := [0x43, 0x4D, 0x47, 0x3D, 0x22]  // CMG="
  const DPB: Bytes := [0x44, 0x50, 0x42, 0x3D, 0x22]  // DPB="
  const GC: Bytes := [0x47, 0x43, 0x3D, 0x22]  // GC="
  const HOST_EXTENDER_INFO: Bytes :=  // [Host Extender Info]
    [0x5B, 0x48, 0x6F, 0x73, 0x74, 0x20, 0x45, 0x78, 0x74, 0x65, 0x6E, 0x64, 0x65, 0x72, 0x20, 0x49,
     0x6E, 0x66, 0x6F, 0x5D]
  const WORKSPACE: Bytes := [0x5B, 0x57, 0x6F, 0x72, 0x6B, 0x73, 0x70, 0x61, 0x63, 0x65, 0x5D]  // [Workspace]
  const COMMA_SPACE: Bytes := [0x2C, 0x20]  // ", "

  const DQUOTE: byte := 0x22
  const SLASH: byte := 0x2F
  const EQUALS: byte := 0x3D
  const SEMICOLON: byte := 0x3B
  const CLOSED: byte := 0x43     // 'C'
  const ZOOMED: byte := 0x5A     // 'Z'
  const MINIMIZED: byte := 0x49  // 'I'

  /** Bounds, in hex digits, of the encrypted fields. */
  const CMG_MIN := 22
  const CMG_MAX := 28
  const DPB_MIN := 16
  const DPB_MAX := 2000
  const GC_MIN := 16
  const GC_MAX := 22

  /** Identifiers, paths and names are kept as the bytes read. */
  datatype Module =
    | Doc(name: Bytes, tlibVersion: int)
    | Std(name: Bytes)
    | Class(name: Bytes)
    | Designer(name: Bytes)

  datatype Item = ModuleItem(entry: Module) | Package(guid: int)

  datatype HostExtenderRef = HostExtenderRef(index: int, guid: int, lib: Bytes, creationFlags: int)

  datatype WindowState = Closed | Zoomed | Minimized

  datatype Window = Window(left: int, top: int, right: int, bottom: int, state: WindowState)

  datatype WindowRecord = WindowRecord(moduleName: Bytes, code: Window, designer: Option<Window>)

  datatype Project = Project(
    id: int,
    items: seq<Item>,
    helpFile: Option<Bytes>,
    exeName: Option<Bytes>,
    name: Bytes,
    helpId: int,
    description: Option<Bytes>,
    protectionState: Fields.ProtectionState,
    password: Fields.Password,
    visibilityState: Fields.Visibility,
    hostExtenders: seq<HostExtenderRef>,
    workspace: Option<seq<WindowRecord>>)
  {
    /** `is_locked`: the project is locked for viewing. */
    predicate IsLocked() { protectionState.vbe }

    /** `password`. */
    function Password(): Fields.Password { password }
  }

  /** `error::ProjectStructure::NomParseError`: where the grammar failed,
      and the whole stream. */
  datatype ProjectError = NomParseError(at: Bytes, stream: Bytes)

  // Header

  function ParseId(input: Bytes): IResult<int>
  {
    var (_, r0) :- Tag(ID_TAG, input);
    var (id, r1) :- Guid.Parse(r0);
    var (_, r2) :- Tag([DQUOTE], r1);
    var (_, rest) :- NewLine.Parse(r2);
    Parsed(id, rest)
  }

  function ParseDocumentModule(input: Bytes): IResult<Module>
  {
    var (_, r0) :- Tag(DOCUMENT, input);
    var (name, r1) :- ModuleIdentifier.Parse(r0);
    var (_, r2) :- Tag([SLASH], r1);
    var (version, rest) :- HexInt32.Parse(r2);
    Parsed(Doc(name, version), rest)
  }

  function ParseStdModule(input: Bytes): IResult<Module>
  {
    var (_, r0) :- Tag(MODULE, input);
    var (name, rest) :- ModuleIdentifier.Parse(r0);
    Parsed(Std(name), rest)
  }

  function ParseClassModule(input: Bytes): IResult<Module>
  {
    var (_, r0) :- Tag(CLASS, input);
    var (name, rest) :- ModuleIdentifier.Parse(r0);
    Parsed(Class(name), rest)
  }

  function ParseDesignerModule(input: Bytes): IResult<Module>
  {
    var (_, r0) :- Tag(BASE_CLASS, input);
    var (name, rest) :- ModuleIdentifier.Parse(r0);
    Parsed(Designer(name), rest)
  }

  /** `module`: the four kinds, tried in order. */
  function ParseModule(input: Bytes): IResult<Item>
  {
    var (m, rest) :- OrElse(ParseDocumentModule(input),
      OrElse(ParseStdModule(input), OrElse(ParseClassModule(input), ParseDesignerModule(input))));
    Parsed(ModuleItem(m), rest)
  }

  function ParsePackage(input: Bytes): IResult<Item>
  {
    var (_, r0) :- Tag(PACKAGE, input);
    var (guid, rest) :- Guid.Parse(r0);
    Parsed(Package(guid), rest)
  }

  function ParseItem(input: Bytes): IResult<Item>
  {
    OrElse(ParseModule(input), ParsePackage(input))
  }

  lemma ModuleConsumes(input: Bytes)
    requires ParseModule(input).Parsed?
    ensures |ParseModule(input).rest| < |input|
  {
    if ParseDocumentModule(input).Parsed? {
      var r0 := input[|DOCUMENT|..];
      ModuleIdentifier.ParseSpec(r0);
      var r1 := ModuleIdentifier.Parse(r0).rest;
      HexInt32.ParseLength(r1[1..]);
    } else if ParseStdModule(input).Parsed? {
      ModuleIdentifier.ParseSpec(input[|MODULE|..]);
    } else if ParseClassModule(input).Parsed? {
      ModuleIdentifier.ParseSpec(input[|CLASS|..]);
    } else {
      ModuleIdentifier.ParseSpec(input[|BASE_CLASS|..]);
    }
  }

  lemma ItemShortens()
    ensures Shortening(ParseItem)
  {
    forall i | ParseItem(i).Parsed? ensures |ParseItem(i).rest| <= |i| {
      if ParseModule(i).Parsed? {
        ModuleConsumes(i);
      } else {
        Guid.ParseLength(i[|PACKAGE|..]);
      }
    }
  }

  /** `items`: items separated by line breaks, then a line break of its
      own, so that an empty list is a blank line. */
  function ParseItems(input: Bytes): IResult<seq<Item>>
  {
    NewLine.ParseShortens();
    ItemShortens();
    var (items, r0) :- SeparatedList0(NewLine.Parse, ParseItem, input);
    var (_, rest) :- NewLine.Parse(r0);
    Parsed(items, rest)
  }

  function ParseHelpFile(input: Bytes): IResult<Bytes>
  {
    var (_, r0) :- Tag(HELP_FILE, input);
    var (path, r1) :- Path.Parse(r0);
    var (_, rest) :- NewLine.Parse(r1);
    Parsed(path, rest)
  }

  function ParseExeName32(input: Bytes): IResult<Bytes>
  {
    var (_, r0) :- Tag(EXE_NAME_32, input);
    var (path, r1) :- Path.Parse(r0);
    var (_, rest) :- NewLine.Parse(r1);
    Parsed(path, rest)
  }

  /** The project name: 1 to 128 quoted characters. */
  function ParseName(input: Bytes): IResult<Bytes>
  {
    var (_, r0) :- Tag(NAME, input);
    var (name, r1) :- QuotedCharacters.Parse(1, 128, r0);
    var (_, rest) :- NewLine.Parse(r1);
    Parsed(name, rest)
  }

  function ParseHelpId(input: Bytes): IResult<int>
  {
    var (_, r0) :- Tag(HELP_CONTEXT_ID, input);
    var (id, r1) :- Int32.Parse(r0);
    var (_, r2) :- Tag([DQUOTE], r1);
    var (_, rest) :- NewLine.Parse(r2);
    Parsed(id, rest)
  }

  /** The description: up to 2000 quoted characters. */
  function ParseDescription(input: Bytes): IResult<Bytes>
  {
    var (_, r0) :- Tag(DESCRIPTION, input);
    var (text, r1) :- QuotedCharacters.Parse(0, 2000, r0);
    var (_, rest) :- NewLine.Parse(r1);
    Parsed(text, rest)
  }

  /** The fixed compatibility line; its value is not kept. */
  function ParseVersionCompat32(input: Bytes): IResult<Bytes>
  {
    var (line, r0) :- Tag(VERSION_COMPATIBLE_32, input);
    var (_, rest) :- NewLine.Parse(r0);
    Parsed(line, rest)
  }

  // Encrypted fields

  /** The frame shared by the three encrypted fields: the tag, `min` to
      `max` hex digits read as bytes, a closing quote and a line break. */
  function ParseEncrypted(tag: Bytes, min: nat, max: nat, input: Bytes): IResult<Bytes>
  {
    var (_, r0) :- Tag(tag, input);
    var (encrypted, r1) :- HexDigits.Parse(min, max, r0);
    var (_, r2) :- Tag([DQUOTE], r1);
    var (_, rest) :- NewLine.Parse(r2);
    Parsed(encrypted, rest)
  }

  /** `map_res` over the frame: a decryption or classification error is a
      parse error at the start of the field. */
  function ParseProtectionState(input: Bytes): IResult<Fields.ProtectionState>
  {
    var (encrypted, rest) :- ParseEncrypted(CMG, CMG_MIN, CMG_MAX, input);
    match Fields.DecryptedProtection(DataEncryption.Decode(encrypted))
    case Err(_) => Failed(input)
    case Ok(state) => Parsed(state, rest)
  }

  function ParsePassword(input: Bytes): IResult<Fields.Password>
  {
    var (encrypted, rest) :- ParseEncrypted(DPB, DPB_MIN, DPB_MAX, input);
    match Fields.DecryptedPassword(DataEncryption.Decode(encrypted))
    case Err(_) => Failed(input)
    case Ok(password) => Parsed(password, rest)
  }

  function ParseVisibilityState(input: Bytes): IResult<Fields.Visibility>
  {
    var (encrypted, rest) :- ParseEncrypted(GC, GC_MIN, GC_MAX, input);
    match Fields.DecryptedVisibility(DataEncryption.Decode(encrypted))
    case Err(_) => Failed(input)
    case Ok(visibility) => Parsed(visibility, rest)
  }

  // Host extenders

  /** Library names: bytes above space other than `;`. */
  predicate IsLibByte(b: byte) { b > 0x20 && b != SEMICOLON }

  /** `lib_name`: the run of library-name bytes, which must be UTF-8
      (`map_res`, so an error is at the start of the run). */
  function ParseLibName(input: Bytes): IResult<Bytes>
  {
    var (lib, rest) :- TakeWhile(IsLibByte, input);
    if Utf8.Valid(lib) then Parsed(lib, rest) else Failed(input)
  }

  function ParseHostExtenderRef(input: Bytes): IResult<HostExtenderRef>
  {
    var (index, r0) :- HexInt32.Parse(input);
    var (_, r1) :- Tag([EQUALS], r0);
    var (guid, r2) :- Guid.Parse(r1);
    var (_, r3) :- Tag([SEMICOLON], r2);
    var (lib, r4) :- ParseLibName(r3);
    var (_, r5) :- Tag([SEMICOLON], r4);
    var (flags, r6) :- HexInt32.Parse(r5);
    var (_, rest) :- NewLine.Parse(r6);
    Parsed(HostExtenderRef(index, guid, lib, flags), rest)
  }

  lemma HostExtenderRefConsumes(input: Bytes)
    requires ParseHostExtenderRef(input).Parsed?
    ensures |ParseHostExtenderRef(input).rest| < |input|
  {
    HexInt32.ParseLength(input);
    var r1 := HexInt32.Parse(input).rest[1..];
    Guid.ParseLength(r1);
    var r3 := Guid.Parse(r1).rest[1..];
    var r5 := ParseLibName(r3).rest[1..];
    HexInt32.ParseLength(r5);
    NewLine.ParseSpec(HexInt32.Parse(r5).rest);
  }

  lemma HostExtenderRefShortens()
    ensures Shortening(ParseHostExtenderRef)
  {
    forall i | ParseHostExtenderRef(i).Parsed? ensures |ParseHostExtenderRef(i).rest| <= |i| {
      HostExtenderRefConsumes(i);
    }
  }

  /** A line break, the `[Host Extender Info]` heading, a line break, and
      the references up to the first line that is not one. */
  function ParseHostExtenders(input: Bytes): IResult<seq<HostExtenderRef>>
  {
    var (_, r0) :- NewLine.Parse(input);
    var (_, r1) :- Tag(HOST_EXTENDER_INFO, r0);
    var (_, r2) :- NewLine.Parse(r1);
    HostExtenderRefShortens();
    Many0(ParseHostExtenderRef, r2)
  }

  // Workspace

  function ParseWindowDim(input: Bytes): IResult<int>
  {
    var (v, r0) :- Int32.Parse(input);
    var (_, rest) :- Tag(COMMA_SPACE, r0);
    Parsed(v, rest)
  }

  function ParseWindowState(input: Bytes): IResult<WindowState>
  {
    var (c, rest) :- OneOf({CLOSED, ZOOMED, MINIMIZED}, input);
    Parsed(if c == CLOSED then Closed else if c == ZOOMED then Zoomed else Minimized, rest)
  }

  function ParseProjectWindow(input: Bytes): IResult<Window>
  {
    var (left, r0) :- ParseWindowDim(input);
    var (top, r1) :- ParseWindowDim(r0);
    var (right, r2) :- ParseWindowDim(r1);
    var (bottom, r3) :- ParseWindowDim(r2);
    var (state, rest) :- ParseWindowState(r3);
    Parsed(Window(left, top, right, bottom, state), rest)
  }

  /** `preceded(tag(", "), project_window)`: the designer window. */
  function ParseDesignerWindow(input: Bytes): IResult<Window>
  {
    var (_, r0) :- Tag(COMMA_SPACE, input);
    ParseProjectWindow(r0)
  }

  function ParseWindowRecord(input: Bytes): IResult<WindowRecord>
  {
    var (moduleName, r0) :- ModuleIdentifier.Parse(input);
    var (_, r1) :- Tag([EQUALS], r0);
    var (code, r2) :- ParseProjectWindow(r1);
    var (designer, r3) :- Opt(ParseDesignerWindow(r2), r2);
    var (_, rest) :- NewLine.Parse(r3);
    Parsed(WindowRecord(moduleName, code, designer), rest)
  }

  lemma WindowDimConsumes(input: Bytes)
    requires ParseWindowDim(input).Parsed?
    ensures |ParseWindowDim(input).rest| < |input|
  {
    Int32.ParseConsumes(input);
  }

  lemma ProjectWindowConsumes(input: Bytes)
    requires ParseProjectWindow(input).Parsed?
    ensures |ParseProjectWindow(input).rest| < |input|
  {
    WindowDimConsumes(input);
    var r0 := ParseWindowDim(input).rest;
    WindowDimConsumes(r0);
    var r1 := ParseWindowDim(r0).rest;
    WindowDimConsumes(r1);
    var r2 := ParseWindowDim(r1).rest;
    WindowDimConsumes(r2);
  }

  lemma WindowRecordConsumes(input: Bytes)
    requires ParseWindowRecord(input).Parsed?
    ensures |ParseWindowRecord(input).rest| < |input|
  {
    ModuleIdentifier.ParseSpec(input);
    var r1 := ModuleIdentifier.Parse(input).rest[1..];
    ProjectWindowConsumes(r1);
    var r2 := ParseProjectWindow(r1).rest;
    if ParseDesignerWindow(r2).Parsed? {
      ProjectWindowConsumes(r2[2..]);
    }
  }

  lemma WindowRecordShortens()
    ensures Shortening(ParseWindowRecord)
  {
    forall i | ParseWindowRecord(i).Parsed? ensures |ParseWindowRecord(i).rest| <= |i| {
      WindowRecordConsumes(i);
    }
  }

  function ParseWorkspace(input: Bytes): IResult<seq<WindowRecord>>
  {
    var (_, r0) :- NewLine.Parse(input);
    var (_, r1) :- Tag(WORKSPACE, r0);
    var (_, r2) :- NewLine.Parse(r1);
    WindowRecordShortens();
    Many0(ParseWindowRecord, r2)
  }

  // The stream

  /** `project`: the fields in order, the bracketed ones optional. */
  function ParseProject(input: Bytes): IResult<Project>
  {
    var (id, r0) :- ParseId(input);
    var (items, r1) :- ParseItems(r0);
    var (helpFile, r2) :- Opt(ParseHelpFile(r1), r1);
    var (exeName, r3) :- Opt(ParseExeName32(r2), r2);
    var (name, r4) :- ParseName(r3);
    var (helpId, r5) :- ParseHelpId(r4);
    var (description, r6) :- Opt(ParseDescription(r5), r5);
    var (_, r7) :- Opt(ParseVersionCompat32(r6), r6);
    var (protectionState, r8) :- ParseProtectionState(r7);
    var (password, r9) :- ParsePassword(r8);
    var (visibilityState, r10) :- ParseVisibilityState(r9);
    var (hostExtenders, r11) :- ParseHostExtenders(r10);
    var (workspace, rest) :- Opt(ParseWorkspace(r11), r11);
    Parsed(Project(id, items, helpFile, exeName, name, helpId, description, protectionState,
      password, visibilityState, hostExtenders, workspace), rest)
  }

  /** `from_stream` after the stream is read: the project, or the input at
      which the grammar failed together with the whole stream. Bytes after
      the last field are not looked at. */
  function FromBytes(stream: Bytes): (r: Result<Project, ProjectError>)
    ensures r.Ok? <==> ParseProject(stream).Parsed?
    ensures r.Ok? ==> r.value == ParseProject(stream).value
    ensures r.Err? ==> r.error == NomParseError(ParseProject(stream).at, stream)
  {
    match ParseProject(stream)
    case Failed(at) => Err(NomParseError(at, stream))
    case Parsed(p, _) => Ok(p)
  }
}
