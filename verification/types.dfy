/**
 * The front end's shared record types: the parsed schema the diagram is drawn
 * from and the generated source files the code modal lists.
 */
module Types {

  datatype Option<T> = None | Some(value: T)

  /** One column of a table: name, type and the attribute strings found in its brackets. */
  datatype Column = Column(name: string, colType: string, attributes: seq<string>)

  datatype Table = Table(name: string, columns: seq<Column>)

  /** A relationship between two table columns; `relation` is the operator text. */
  datatype Ref = Ref(fromTable: string, fromColumn: string, toTable: string, toColumn: string, relation: string)

  datatype ParsedSchema = ParsedSchema(tables: seq<Table>, refs: seq<Ref>)

  datatype GeneratedFile = GeneratedFile(fileName: string, content: string)
}
