/**
 * What both servers read from the Google Sheets API: the spreadsheet's sheet
 * list (each sheet's numeric id and title) and the cell values of a range,
 * a sequence of rows of strings. The API calls themselves are inputs.
 */
module Sheets {
  import opened Wrappers
  import opened Text
  import opened SeqSearch

  /** `sheet.properties` of one entry of the spreadsheet metadata. */
  datatype SheetProperties = SheetProperties(sheetId: nat, title: string)

  /** One row of `response.data.values`. */
  type Row = seq<string>

  /** `sheet => sheet.properties.sheetId.toString() === gid`. */
  function HasGid(gid: string): (p: SheetProperties -> bool)
    ensures forall s :: p(s) <==> NatToString(s.sheetId) == gid
  {
    (s: SheetProperties) => NatToString(s.sheetId) == gid
  }

  /** `data.sheets.find(...)`: the first sheet whose id, written in decimal, is `gid`. */
  function FindSheetByGid(sheets: seq<SheetProperties>, gid: string): (r: Option<SheetProperties>)
    ensures r.None? <==> forall i :: 0 <= i < |sheets| ==> NatToString(sheets[i].sheetId) != gid
    ensures r.Some? ==> exists i :: 0 <= i < |sheets| && sheets[i] == r.value
                          && NatToString(sheets[i].sheetId) == gid
                          && (forall j :: 0 <= j < i ==> NatToString(sheets[j].sheetId) != gid)
  {
    Find(sheets, HasGid(gid))
  }

  /** A gid that is not the decimal rendering of a number (a sign, a leading
      zero, a letter) never finds a sheet. */
  lemma NonCanonicalGidFindsNothing(sheets: seq<SheetProperties>, gid: string)
    requires gid == [] || !AllDigits(gid) || (|gid| > 1 && gid[0] == '0')
    ensures FindSheetByGid(sheets, gid).None?
  {
  }

  /** The sheet found for the rendering of an id is one with that very id. */
  lemma {:induction false} FoundSheetHasId(sheets: seq<SheetProperties>, id: nat)
    requires FindSheetByGid(sheets, NatToString(id)).Some?
    ensures FindSheetByGid(sheets, NatToString(id)).value.sheetId == id
  {
    var s := FindSheetByGid(sheets, NatToString(id)).value;
    NatToStringInjective(s.sheetId, id);
  }
}
