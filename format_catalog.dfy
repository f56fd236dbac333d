/** The fixed list of target formats offered as tiles (`ext` in app/data/types.ts).
    The icon component of each entry is presentation only and is not modelled. */
module FormatCatalog {

  datatype FormatEntry = FormatEntry(id: int, fileType: string, theme: string)

  const Catalog: seq<FormatEntry> := [
    FormatEntry(1, "pdf", "red"),
    FormatEntry(2, "docx", "blue"),
    FormatEntry(3, "xlsx", "green"),
    FormatEntry(4, "pptx", "red"),
    FormatEntry(6, "txt", "yellow")
  ]

  /** Five entries, with ids 1, 2, 3, 4 and 6 (there is no 5), in this order: pdf/red,
      docx/blue, xlsx/green, pptx/red, txt/yellow. */
  lemma CatalogShape()
    ensures |Catalog| == 5
    ensures seq(|Catalog|, i requires 0 <= i < |Catalog| => Catalog[i].id) == [1, 2, 3, 4, 6]
    ensures seq(|Catalog|, i requires 0 <= i < |Catalog| => Catalog[i].fileType)
      == ["pdf", "docx", "xlsx", "pptx", "txt"]
    ensures seq(|Catalog|, i requires 0 <= i < |Catalog| => Catalog[i].theme)
      == ["red", "blue", "green", "red", "yellow"]
  {
  }

  /** The ids are pairwise distinct, so they are valid list keys. */
  lemma IdsDistinct()
    ensures forall i, j :: 0 <= i < j < |Catalog| ==> Catalog[i].id != Catalog[j].id
  {
  }

  /** The type strings are pairwise distinct, so a selected type names at most one tile. */
  lemma TypesDistinct()
    ensures forall i, j :: 0 <= i < |Catalog| && 0 <= j < |Catalog| && i != j ==>
      Catalog[i].fileType != Catalog[j].fileType
  {
  }
}
