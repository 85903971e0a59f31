/** The optional value used for pandas' missing cells, pdfplumber's absent
    text and the script outcomes that produce nothing. */
module Wrappers {

  datatype Option<+T> = None | Some(value: T)
}
