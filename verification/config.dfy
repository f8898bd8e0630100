/**
 The already-parsed query configuration a query service is built from, and
 the schema entry it announces to clients.
 */
module Config {
  import opened Options

  /** One projected field as the schema announces it; the executor's own keys are not modelled. */
  datatype FieldSpec = FieldSpec(name: string, title: string, typ: string)

  /** One leg of the join: a table and the alias it goes by. */
  datatype JoinSpec = JoinSpec(table: string, alias: string)

  /** `queryName`, `joinspec`, `fields` and the optional `allowWhere` permission predicate. */
  datatype QueryCfg = QueryCfg(
    queryName: string,
    joinspec: seq<JoinSpec>,
    fields: seq<FieldSpec>,
    allowWhere: Option<string>)

  /** One schema entry as sent in `<Q>_ACK`: name, title and type only. */
  datatype SchemaField = SchemaField(name: string, title: string, typ: string)
}
