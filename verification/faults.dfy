/** The ways the script's run aborts inside the modelled core. */
module Faults {

  datatype Fault =
    /** A bs4 attribute chain (`bib.div.div`, `bib.p`) found no element, so Python dereferenced `None`. */
    | MissingElement(chain: seq<string>)
    /** `item_types_dict[itemType]` raised `KeyError`: the catalog has no label for the code. */
    | UnknownItemType(code: string)
}
