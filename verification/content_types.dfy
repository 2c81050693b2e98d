/** Data model of the external content indexer: title IDs, content files,
    the metadata a content archive describes, and the two kinds of record the
    indexer collects before committing them. */
module ContentTypes {
  import opened Wrappers
  import opened MachineIntegers

  /** A 64-bit title ID. */
  type TitleId = U64

  /** The kinds of content record a metadata archive lists. */
  datatype RecordType = Meta | Program | Data | Control | HtmlDocument | LegalInformation | DeltaFragment

  /** A virtual file handle, possibly null. */
  datatype File = NullFile | Handle(id: nat)

  /** The title types the indexer distinguishes; every other type is ignored. */
  datatype TitleType = Update | AOC | OtherTitleType

  /** One content record of a metadata archive. */
  datatype ContentRecord = ContentRecord(rtype: RecordType, ncaId: nat)

  /** The parsed content metadata: type, own title ID, version, records. */
  datatype Cnmt = Cnmt(kind: TitleType, titleId: TitleId, version: nat, records: seq<ContentRecord>)

  /** An update candidate, grouped under its base title. `ncas` holds at most
      one file per record type. */
  datatype ParsedUpdate = ParsedUpdate(titleId: TitleId, version: nat, ncas: map<RecordType, File>)

  /** One DLC content file, kept in discovery order with duplicates. */
  datatype ParsedDlcRecord = ParsedDlcRecord(titleId: TitleId, file: File)

  /** What the indexer has collected between a rebuild's reset and commit. */
  datatype Index = Index(updatesByTitle: map<TitleId, seq<ParsedUpdate>>, allDlc: seq<ParsedDlcRecord>)

  const EmptyIndex := Index(map[], [])

  /** One registration handed to the content provider. */
  datatype Entry = Entry(kind: TitleType, rtype: RecordType, titleId: TitleId, fileId: nat)
}
