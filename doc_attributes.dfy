/** Reserved node attribute names: the ones the store manages itself. */
module DocAttributes {
  import opened JavaText

  const SysPrefix := "system."
  const Title := "title"
  const ContentType := "contenttype"
  const FileExtension := "fileext"

  /** `isInternalAttributeName`: the three reserved names, or any name starting with "system.". */
  predicate IsInternalAttributeName(attName: string)
  {
    attName == Title || attName == ContentType || attName == FileExtension || StartsWith(attName, SysPrefix)
  }

  /** A name is internal exactly when it is reserved or in the system namespace; the test is case-sensitive. */
  lemma InternalNames(attName: string)
    ensures IsInternalAttributeName(attName) <==>
      (attName in {"title", "contenttype", "fileext"} || (|attName| >= 7 && attName[..7] == "system."))
    ensures !IsInternalAttributeName("Title") && !IsInternalAttributeName("System.x")
    ensures IsInternalAttributeName("system.") && !IsInternalAttributeName("system")
  {
    assert "System.x"[..7] != SysPrefix by { assert "System.x"[0] != SysPrefix[0]; }
  }
}
