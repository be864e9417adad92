/** How a caller identifier is shown in the detail sheet: an internal exchange
    identifier (32 lower-case hexadecimal characters) is shown as "PBX",
    anything else as it is. */
module Display {

  const PbxLabel: string := "PBX"
  const PbxIdLength: nat := 32

  /** One character of the class [a-f0-9]. */
  predicate IsLowerHex(c: char) {
    '0' <= c <= '9' || 'a' <= c <= 'f'
  }

  /** The identifier is exactly 32 characters of [a-f0-9]. */
  predicate IsPbxId(id: string) {
    |id| == PbxIdLength && forall i :: 0 <= i < |id| ==> IsLowerHex(id[i])
  }

  /** Python's `$` succeeds at position `e` when `e` is the end of the string
      or when only a final newline follows it. */
  predicate EndAnchorAt(id: string, e: nat) {
    e == |id| || (e + 1 == |id| && id[e] == '\n')
  }

  /** re.match(r"^[a-f0-9]{32}$", id): 32 characters of the class from the
      start, then the end anchor. */
  predicate MatchesPbxPatternAsWritten(id: string) {
    |id| >= PbxIdLength
    && (forall i :: 0 <= i < PbxIdLength ==> IsLowerHex(id[i]))
    && EndAnchorAt(id, PbxIdLength)
  }

  /** The display-name rule as the pattern match evaluates it. */
  function DisplayNameAsWritten(id: string): (name: string)
    ensures name == PbxLabel || name == id
    ensures IsPbxId(id) ==> name == PbxLabel
  {
    if MatchesPbxPatternAsWritten(id) then PbxLabel else id
  }

  /** The display-name rule as intended: only an identifier that is exactly a
      PBX identifier becomes "PBX". */
  function DisplayName(id: string): (name: string)
    ensures name == PbxLabel || name == id
  {
    if IsPbxId(id) then PbxLabel else id
  }

  /** "PBX" comes out exactly for PBX identifiers (and for the identifier
      "PBX" itself, returned unchanged); every other identifier comes out as it
      went in. */
  lemma DisplayNameIff(id: string)
    ensures DisplayName(id) == PbxLabel <==> IsPbxId(id) || id == PbxLabel
    ensures DisplayName(id) == id <==> !IsPbxId(id)
  {
  }

  /** The written pattern and the intended rule disagree exactly on a PBX
      identifier followed by one trailing newline. */
  lemma AsWrittenDiffersOnlyOnTrailingNewline(id: string)
    ensures DisplayNameAsWritten(id) != DisplayName(id)
        <==> |id| == PbxIdLength + 1 && IsPbxId(id[..PbxIdLength]) && id[PbxIdLength] == '\n'
  {
    if |id| == PbxIdLength + 1 && IsPbxId(id[..PbxIdLength]) && id[PbxIdLength] == '\n' {
      assert forall i :: 0 <= i < PbxIdLength ==> id[i] == id[..PbxIdLength][i];
    }
    if MatchesPbxPatternAsWritten(id) && !IsPbxId(id) {
      assert forall i :: 0 <= i < PbxIdLength ==> id[..PbxIdLength][i] == id[i];
    }
  }

  const SamplePbxId: string := "0123456789abcdef0123456789abcdef"

  /** A 33-character identifier, a PBX identifier with a trailing newline, is
      shown as "PBX" by the written pattern although it is not a PBX identifier. */
  lemma TrailingNewlineShownAsPbx()
    ensures !IsPbxId(SamplePbxId + "\n")
    ensures DisplayNameAsWritten(SamplePbxId + "\n") == PbxLabel
    ensures DisplayName(SamplePbxId + "\n") == SamplePbxId + "\n"
  {
    var id := SamplePbxId + "\n";
    assert id[..PbxIdLength] == SamplePbxId;
    assert IsPbxId(SamplePbxId);
    AsWrittenDiffersOnlyOnTrailingNewline(id);
  }

  lemma DisplayNameExamples()
    ensures DisplayName(SamplePbxId) == PbxLabel
    ensures DisplayName("alice@example.com") == "alice@example.com"
    ensures DisplayName("0123456789ABCDEF0123456789ABCDEF") == "0123456789ABCDEF0123456789ABCDEF"
  {
    assert IsPbxId(SamplePbxId);
    assert !IsLowerHex("0123456789ABCDEF0123456789ABCDEF"[10]);
  }
}
