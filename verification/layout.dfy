/** The fixed literals of the Form 26AS text export and the converter's failures. */
module Layout {

  /** The literal that opens Part I of the statement (`^`-delimited, exact spacing). */
  const Marker: string := "^PART-I - Details of Tax Deducted at Source^"

  /** The substring / field that identifies the column-header line. */
  const SerialColumn: string := "Sr. No."

  /** The per-deductor summary header line after which a blank line is forced. */
  const TargetLine: string :=
    "Sr. No.^Name of Deductor^TAN of Deductor^^^^^Total Amount Paid / Credited(Rs.)^Total Tax Deducted(Rs.)^Total TDS Deposited(Rs.)"

  /** The line inserted after the first header line of Part I: a single space. */
  const Breaker: string := " "

  /** Column names of the deductor identity prepended to every record. */
  const IdentityColumns: seq<string> := ["Deductor Number", "Name of Deductor", "TAN of Deductor"]

  /** Columns removed before the fresh serial column is inserted. */
  const DropColumns: seq<string> := ["Deductor Number", "Sr. No."]

  /** Columns `create_dataframe` coerces to numbers when the header has them. */
  const NumericColumns: seq<string> := ["Amount Paid / Credited(Rs.)", "Tax Deducted(Rs.)", "TDS Deposited(Rs.)"]

  /** The marker and the header label each sit within one line and are longer than the breaker. */
  lemma SingleLineLiterals()
    ensures |Marker| > |Breaker| && '\n' !in Marker
    ensures |SerialColumn| > |Breaker| && '\n' !in SerialColumn
  {
    NoNewlineIn(Marker);
    NoNewlineIn(SerialColumn);
  }

  /** A string made of characters other than `'\n'` holds no `'\n'`. */
  lemma NoNewlineIn(s: string)
    requires forall k :: 0 <= k < |s| ==> s[k] != '\n'
    ensures '\n' !in s
  {
  }

  /** Three identity columns lead every record. */
  lemma IdentityWidth()
    ensures |IdentityColumns| == 3
  {
  }

  /** The exceptions the converter raises. */
  datatype Error =
    | MissingSection  // ValueError("Expected header not found in the file")
    | SectionIndex    // IndexError: the marker is absent when records are read
    | MissingHeader   // ValueError("Header not found in the file")
    | NumericSelection  // TypeError: a numeric label names several columns, so `pd.to_numeric` gets a frame
}
