/** The import plan shared by discovery, section layout and the fixer. */
module ImportTypes {
  import opened Bytes

  /** A symbol imported by name (with a lookup hint) or by ordinal. */
  datatype ImportSymbol = ImportSymbol(name: Option<Bytes>, ordinal: Option<U16>, hint: U16)

  datatype ImportModule = ImportModule(moduleName: Bytes, firstThunk: U32, symbols: seq<ImportSymbol>)

  datatype ImportPlan = ImportPlan(modules: seq<ImportModule>)
}
