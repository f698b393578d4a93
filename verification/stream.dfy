/** A whole PROJECT stream written from a project, and the round trip: every
    well-formed project, written with encrypted fields that decrypt to its
    protection state, password and visibility, is read back by `from_stream`,
    whatever inert bytes follow. */
module ProjectStream {
  import opened Bytes
  import opened Nom
  import Radix
  import HexInt32
  import ModuleIdentifier
  import NewLine
  import DataEncryption
  import Fields
  import opened ProjectRecord
  import opened ProjectText

  /** What a stream holds that the project value does not keep: whether the
      compatibility line is present, and the encrypted bytes of the CMG, DPB
      and GC fields. */
  datatype Wire = Wire(compat: bool, cmg: Bytes, dpb: Bytes, gc: Bytes)

  /** The project's fields are ones the grammar can carry. */
  predicate WellFormed(p: Project)
  {
    && 0 <= p.id <= Radix.U128.max
    && (forall i :: 0 <= i < |p.items| ==> WellFormedItem(p.items[i]))
    && (p.helpFile.Some? ==> ValidPath(p.helpFile.value))
    && (p.exeName.Some? ==> ValidPath(p.exeName.value))
    && ValidProjectName(p.name)
    && Radix.I32.min <= p.helpId <= Radix.I32.max
    && (p.description.Some? ==> ValidDescription(p.description.value))
    && (forall i :: 0 <= i < |p.hostExtenders| ==> WellFormedRef(p.hostExtenders[i]))
    && (p.workspace.Some? ==> forall i :: 0 <= i < |p.workspace.value| ==> WellFormedRecord(p.workspace.value[i]))
  }

  /** The encrypted fields fit their bounds and decrypt to the project's
      protection state, password and visibility. */
  predicate WireFor(p: Project, w: Wire)
  {
    && CMG_MIN / 2 <= |w.cmg| <= CMG_MAX / 2
    && Fields.DecryptedProtection(DataEncryption.Decode(w.cmg)) == Ok(p.protectionState)
    && DPB_MIN / 2 <= |w.dpb| <= DPB_MAX / 2
    && Fields.DecryptedPassword(DataEncryption.Decode(w.dpb)) == Ok(p.password)
    && GC_MIN / 2 <= |w.gc| <= GC_MAX / 2
    && Fields.DecryptedVisibility(DataEncryption.Decode(w.gc)) == Ok(p.visibilityState)
  }

  /** Bytes after the last section that the grammar does not take for more
      of it: nothing, or a first byte that starts no record, reference or
      line break. */
  predicate Inert(rest: Bytes)
  {
    |rest| == 0 || !(IsAlpha(rest[0]) || rest[0] == HexInt32.PREFIX[0] || rest[0] == NewLine.CR || rest[0] == NewLine.LF)
  }

  /** The stream: every section in order, then `rest`. */
  function Stream(p: Project, w: Wire, rest: Bytes): Bytes
  {
    IdLine(p.id,
    ItemsText(p.items,
    OptLine(HelpFileLine, p.helpFile,
    OptLine(ExeNameLine, p.exeName,
    NameLine(p.name,
    HelpIdLine(p.helpId,
    OptLine(DescriptionLine, p.description,
    CompatText(w.compat,
    EncryptedLine(CMG, w.cmg,
    EncryptedLine(DPB, w.dpb,
    EncryptedLine(GC, w.gc,
    HostExtendersText(p.hostExtenders,
    OptWorkspace(p.workspace, rest)))))))))))))
  }

  // The sections one by one

  lemma HelpFileOptRead(h: Option<Bytes>, rest: Bytes)
    requires h.Some? ==> ValidPath(h.value)
    requires |rest| > 0
    requires h.None? ==> rest[0] != HELP_FILE[0]
    ensures var text := OptLine(HelpFileLine, h, rest);
      && Opt(ParseHelpFile(text), text) == Parsed(h, rest)
      && text[0] == (if h.Some? then HELP_FILE[0] else rest[0])
  {
    match h
    case None => TagMisses(HELP_FILE, rest);
    case Some(path) => HelpFileRead(path, rest);
  }

  lemma ExeNameOptRead(e: Option<Bytes>, rest: Bytes)
    requires e.Some? ==> ValidPath(e.value)
    requires |rest| > 0
    requires e.None? ==> rest[0] != EXE_NAME_32[0]
    ensures var text := OptLine(ExeNameLine, e, rest);
      && Opt(ParseExeName32(text), text) == Parsed(e, rest)
      && text[0] == (if e.Some? then EXE_NAME_32[0] else rest[0])
  {
    match e
    case None => TagMisses(EXE_NAME_32, rest);
    case Some(path) => ExeNameRead(path, rest);
  }

  lemma DescriptionOptRead(d: Option<Bytes>, rest: Bytes)
    requires d.Some? ==> ValidDescription(d.value)
    requires |rest| > 0
    requires d.None? ==> rest[0] != DESCRIPTION[0]
    ensures var text := OptLine(DescriptionLine, d, rest);
      && Opt(ParseDescription(text), text) == Parsed(d, rest)
      && text[0] == (if d.Some? then DESCRIPTION[0] else rest[0])
  {
    match d
    case None => TagMisses(DESCRIPTION, rest);
    case Some(text) => DescriptionRead(text, rest);
  }

  lemma CompatOptRead(present: bool, rest: Bytes)
    requires |rest| > 0
    requires !present ==> rest[0] != VERSION_COMPATIBLE_32[0]
    ensures var text := CompatText(present, rest);
      && Opt(ParseVersionCompat32(text), text)
        == Parsed(if present then Some(VERSION_COMPATIBLE_32) else None, rest)
      && text[0] == (if present then VERSION_COMPATIBLE_32[0] else rest[0])
  {
    if present {
      TagWritten(VERSION_COMPATIBLE_32, CRLF + rest);
      NewLine.ParseWritten(CRLF, rest);
    } else {
      TagMisses(VERSION_COMPATIBLE_32, rest);
    }
  }

  /** The stream from the CMG line on. */
  function CmgOnward(p: Project, w: Wire, rest: Bytes): Bytes
  {
    EncryptedLine(CMG, w.cmg,
    EncryptedLine(DPB, w.dpb,
    EncryptedLine(GC, w.gc,
    HostExtendersText(p.hostExtenders,
    OptWorkspace(p.workspace, rest)))))
  }

  /** The host extenders and the optional workspace are read back when the
      bytes after them are inert. */
  lemma TrailerRead(refs: seq<HostExtenderRef>, workspace: Option<seq<WindowRecord>>, rest: Bytes)
    requires forall i :: 0 <= i < |refs| ==> WellFormedRef(refs[i])
    requires workspace.Some? ==> forall i :: 0 <= i < |workspace.value| ==> WellFormedRecord(workspace.value[i])
    requires Inert(rest)
    ensures var t12 := OptWorkspace(workspace, rest);
      && ParseHostExtenders(HostExtendersText(refs, t12)) == Parsed(refs, t12)
      && Opt(ParseWorkspace(t12), t12) == Parsed(workspace, rest)
  {
    var t12 := OptWorkspace(workspace, rest);
    match workspace
    case None =>
      NewLine.ParseSpec(rest);
      HostExtendersRead(refs, rest);
    case Some(records) =>
      WorkspaceRead(records, rest);
      assert t12[0] == NewLine.CR;
      HostExtendersRead(refs, t12);
  }

  /** The three encrypted lines are read back as the values they decrypt
      to. */
  lemma EncryptedFieldsRead(p: Project, w: Wire, rest: Bytes)
    requires WireFor(p, w)
    ensures var t10 := EncryptedLine(GC, w.gc, rest);
      var t9 := EncryptedLine(DPB, w.dpb, t10);
      && ParseProtectionState(EncryptedLine(CMG, w.cmg, t9)) == Parsed(p.protectionState, t9)
      && ParsePassword(t9) == Parsed(p.password, t10)
      && ParseVisibilityState(t10) == Parsed(p.visibilityState, rest)
  {
    var t10 := EncryptedLine(GC, w.gc, rest);
    var t9 := EncryptedLine(DPB, w.dpb, t10);
    ProtectionLineRead(w.cmg, t9);
    PasswordLineRead(w.dpb, t10);
    VisibilityLineRead(w.gc, rest);
  }

  /** `project` over input laid out section by section. */
  lemma ProjectLaidOut(input: Bytes, p: Project, t1: Bytes, t2: Bytes, t3: Bytes, t4: Bytes, t5: Bytes,
      t6: Bytes, t7: Bytes, t8: Bytes, t9: Bytes, t10: Bytes, t11: Bytes, t12: Bytes, rest: Bytes)
    requires ParseId(input) == Parsed(p.id, t1)
    requires ParseItems(t1) == Parsed(p.items, t2)
    requires Opt(ParseHelpFile(t2), t2) == Parsed(p.helpFile, t3)
    requires Opt(ParseExeName32(t3), t3) == Parsed(p.exeName, t4)
    requires ParseName(t4) == Parsed(p.name, t5)
    requires ParseHelpId(t5) == Parsed(p.helpId, t6)
    requires Opt(ParseDescription(t6), t6) == Parsed(p.description, t7)
    requires Opt(ParseVersionCompat32(t7), t7).rest == t8
    requires ParseProtectionState(t8) == Parsed(p.protectionState, t9)
    requires ParsePassword(t9) == Parsed(p.password, t10)
    requires ParseVisibilityState(t10) == Parsed(p.visibilityState, t11)
    requires ParseHostExtenders(t11) == Parsed(p.hostExtenders, t12)
    requires Opt(ParseWorkspace(t12), t12) == Parsed(p.workspace, rest)
    ensures ParseProject(input) == Parsed(p, rest)
  {
  }

  /** The header lines that may follow the modules start with none of the
      module tags, so the list of modules ends before them. */
  lemma HeaderNotItem(b: byte)
    requires b == HELP_FILE[0] || b == EXE_NAME_32[0] || b == NAME[0]
    ensures !StartsItem(b)
  {
  }

  /** The lines from the help file to the compatibility line are read back
      when the CMG line follows them, and the first of them starts no
      module. */
  lemma HeaderRead(p: Project, compat: bool, t8: Bytes)
    requires p.helpFile.Some? ==> ValidPath(p.helpFile.value)
    requires p.exeName.Some? ==> ValidPath(p.exeName.value)
    requires ValidProjectName(p.name)
    requires Radix.I32.min <= p.helpId <= Radix.I32.max
    requires p.description.Some? ==> ValidDescription(p.description.value)
    requires |t8| > 0 && t8[0] == CMG[0]
    ensures var t7 := CompatText(compat, t8);
      var t6 := OptLine(DescriptionLine, p.description, t7);
      var t5 := HelpIdLine(p.helpId, t6);
      var t4 := NameLine(p.name, t5);
      var t3 := OptLine(ExeNameLine, p.exeName, t4);
      var t2 := OptLine(HelpFileLine, p.helpFile, t3);
      && Opt(ParseHelpFile(t2), t2) == Parsed(p.helpFile, t3)
      && Opt(ParseExeName32(t3), t3) == Parsed(p.exeName, t4)
      && ParseName(t4) == Parsed(p.name, t5)
      && ParseHelpId(t5) == Parsed(p.helpId, t6)
      && Opt(ParseDescription(t6), t6) == Parsed(p.description, t7)
      && Opt(ParseVersionCompat32(t7), t7).rest == t8
      && |t2| > 0 && !StartsItem(t2[0])
  {
    var t7 := CompatText(compat, t8);
    var t6 := OptLine(DescriptionLine, p.description, t7);
    var t5 := HelpIdLine(p.helpId, t6);
    var t4 := NameLine(p.name, t5);
    var t3 := OptLine(ExeNameLine, p.exeName, t4);
    var t2 := OptLine(HelpFileLine, p.helpFile, t3);
    CompatOptRead(compat, t8);
    DescriptionOptRead(p.description, t7);
    HelpIdRead(p.helpId, t6);
    NameLineRead(p.name, t5);
    assert t4[0] == NAME[0];
    ExeNameOptRead(p.exeName, t4);
    HelpFileOptRead(p.helpFile, t3);
    HeaderNotItem(t2[0]);
  }

  /** The encrypted fields, host extenders and workspace are read back,
      and the CMG line starts the bytes they fill. */
  lemma FieldsAndTrailerRead(p: Project, w: Wire, rest: Bytes)
    requires WellFormed(p) && WireFor(p, w) && Inert(rest)
    ensures var t12 := OptWorkspace(p.workspace, rest);
      var t11 := HostExtendersText(p.hostExtenders, t12);
      var t10 := EncryptedLine(GC, w.gc, t11);
      var t9 := EncryptedLine(DPB, w.dpb, t10);
      var t8 := EncryptedLine(CMG, w.cmg, t9);
      && ParseProtectionState(t8) == Parsed(p.protectionState, t9)
      && ParsePassword(t9) == Parsed(p.password, t10)
      && ParseVisibilityState(t10) == Parsed(p.visibilityState, t11)
      && ParseHostExtenders(t11) == Parsed(p.hostExtenders, t12)
      && Opt(ParseWorkspace(t12), t12) == Parsed(p.workspace, rest)
      && |t8| > 0 && t8[0] == CMG[0]
  {
    var t12 := OptWorkspace(p.workspace, rest);
    var t11 := HostExtendersText(p.hostExtenders, t12);
    TrailerRead(p.hostExtenders, p.workspace, rest);
    EncryptedFieldsRead(p, w, t11);
  }

  /** Every well-formed project, written with encrypted fields for its
      values, is parsed back, and the inert bytes after it are left. */
  lemma StreamRead(p: Project, w: Wire, rest: Bytes)
    requires WellFormed(p) && WireFor(p, w) && Inert(rest)
    ensures ParseProject(Stream(p, w, rest)) == Parsed(p, rest)
  {
    var t12 := OptWorkspace(p.workspace, rest);
    var t11 := HostExtendersText(p.hostExtenders, t12);
    var t10 := EncryptedLine(GC, w.gc, t11);
    var t9 := EncryptedLine(DPB, w.dpb, t10);
    var t8 := EncryptedLine(CMG, w.cmg, t9);
    var t7 := CompatText(w.compat, t8);
    var t6 := OptLine(DescriptionLine, p.description, t7);
    var t5 := HelpIdLine(p.helpId, t6);
    var t4 := NameLine(p.name, t5);
    var t3 := OptLine(ExeNameLine, p.exeName, t4);
    var t2 := OptLine(HelpFileLine, p.helpFile, t3);
    var t1 := ItemsText(p.items, t2);
    FieldsAndTrailerRead(p, w, rest);
    HeaderRead(p, w.compat, t8);
    ItemsRead(p.items, t2);
    IdRead(p.id, t1);
    ProjectLaidOut(Stream(p, w, rest), p, t1, t2, t3, t4, t5, t6, t7, t8, t9, t10, t11, t12, rest);
  }

  /** `from_stream` on a written project gives back the project. */
  lemma StreamRoundTrip(p: Project, w: Wire, rest: Bytes)
    requires WellFormed(p) && WireFor(p, w) && Inert(rest)
    ensures FromBytes(Stream(p, w, rest)) == Ok(p)
  {
    StreamRead(p, w, rest);
  }

  /** `project` over input whose sections up to the CMG line are laid out
      and whose CMG line is rejected. */
  lemma ProjectFailsAtCmg(input: Bytes, p: Project, t1: Bytes, t2: Bytes, t3: Bytes, t4: Bytes, t5: Bytes,
      t6: Bytes, t7: Bytes, t8: Bytes)
    requires ParseId(input) == Parsed(p.id, t1)
    requires ParseItems(t1) == Parsed(p.items, t2)
    requires Opt(ParseHelpFile(t2), t2) == Parsed(p.helpFile, t3)
    requires Opt(ParseExeName32(t3), t3) == Parsed(p.exeName, t4)
    requires ParseName(t4) == Parsed(p.name, t5)
    requires ParseHelpId(t5) == Parsed(p.helpId, t6)
    requires Opt(ParseDescription(t6), t6) == Parsed(p.description, t7)
    requires Opt(ParseVersionCompat32(t7), t7).rest == t8
    requires ParseProtectionState(t8).Failed?
    ensures ParseProject(input) == Failed(ParseProtectionState(t8).at)
  {
  }

  /** The error path: a CMG field that does not decrypt to a protection
      state makes `from_stream` fail, reporting the stream from the CMG
      line on, whatever that line is followed by. */
  lemma StreamRejectsCmg(p: Project, w: Wire, rest: Bytes)
    requires WellFormed(p) && CMG_MIN / 2 <= |w.cmg| <= CMG_MAX / 2
    requires Fields.DecryptedProtection(DataEncryption.Decode(w.cmg)).Err?
    ensures FromBytes(Stream(p, w, rest)) == Err(NomParseError(CmgOnward(p, w, rest), Stream(p, w, rest)))
  {
    var t8 := CmgOnward(p, w, rest);
    var t7 := CompatText(w.compat, t8);
    var t6 := OptLine(DescriptionLine, p.description, t7);
    var t5 := HelpIdLine(p.helpId, t6);
    var t4 := NameLine(p.name, t5);
    var t3 := OptLine(ExeNameLine, p.exeName, t4);
    var t2 := OptLine(HelpFileLine, p.helpFile, t3);
    var t1 := ItemsText(p.items, t2);
    var t9 := EncryptedLine(DPB, w.dpb, EncryptedLine(GC, w.gc, HostExtendersText(p.hostExtenders, OptWorkspace(p.workspace, rest))));
    ProtectionLineRead(w.cmg, t9);
    HeaderRead(p, w.compat, t8);
    ItemsRead(p.items, t2);
    IdRead(p.id, t1);
    var s := Stream(p, w, rest);
    assert s == IdLine(p.id, t1);
    ProjectFailsAtCmg(s, p, t1, t2, t3, t4, t5, t6, t7, t8);
  }

  /** A written project is locked exactly when bit 2 of the first decrypted
      CMG byte is set. */
  lemma StreamLocked(p: Project, w: Wire, rest: Bytes)
    requires WellFormed(p) && WireFor(p, w) && Inert(rest)
    ensures FromBytes(Stream(p, w, rest)).Ok?
    ensures FromBytes(Stream(p, w, rest)).value.IsLocked() <==> DataEncryption.Decode(w.cmg).value[0] & 4 != 0
  {
    StreamRoundTrip(p, w, rest);
    Fields.LockedIsBitTwo(DataEncryption.Decode(w.cmg).value);
  }

  // Encrypting the fields

  /** A seed and a project key for `encode`. */
  datatype Keys = Keys(seed: byte, key: byte)

  /** The wire of a project whose three fields are encrypted with `encode`. */
  function EncodedWire(p: Project, compat: bool, cmg: Keys, dpb: Keys, gc: Keys): Wire
    requires Fields.Encodable(p.password)
  {
    Wire(compat,
      DataEncryption.Encode(cmg.seed, cmg.key, Fields.ProtectionBytes(p.protectionState)),
      DataEncryption.Encode(dpb.seed, dpb.key, Fields.PasswordBytes(p.password)),
      DataEncryption.Encode(gc.seed, gc.key, [Fields.VisibilityByte(p.visibilityState)]))
  }

  /** Encrypting the three fields under any seeds and keys gives a wire for
      the project, as long as the password's bytes fit the length byte the
      decryption checks. */
  lemma EncodedWireFor(p: Project, compat: bool, cmg: Keys, dpb: Keys, gc: Keys)
    requires Fields.Encodable(p.password) && |Fields.PasswordBytes(p.password)| <= 255
    ensures WireFor(p, EncodedWire(p, compat, cmg, dpb, gc))
  {
    Fields.ProtectionEncrypted(cmg.seed, cmg.key, p.protectionState);
    Fields.PasswordEncrypted(dpb.seed, dpb.key, p.password);
    Fields.VisibilityEncrypted(gc.seed, gc.key, p.visibilityState);
  }
}
