/** Optional values: the schema's `orm.Optional` owner references and the parser's
    "syntax error or node list" outcome. */
module Wrappers {

  datatype Option<+T> = None | Some(value: T)
}
