/** The record the OCR service hands back: named fields and the recognised
    text. The fields hold usage readings under month keys ("10月値") and the
    average word confidence under "ocr_confidence". */
module Invoices {

  datatype FieldValue =
    | Reading(kwh: string)
    | Confidence(average: real)

  datatype Invoice = Invoice(fields: map<string, FieldValue>, rawText: string)

  /** Key of the average recognition confidence. */
  const ConfidenceKey: string := "ocr_confidence"

  /** Suffix of a month key: "<month>月値". */
  const MonthKeySuffix: string := "月値"
}
