/**
 * The write-ahead log as the commit code sees it: a growing sequence of logical records. The
 * file format and its serialisation are not part of this model.
 */
module Wal {
  import opened Common

  datatype LogRecord =
    | SetTable(schema: string, table: string)
    | CreateTable(name: string)
    | CreateSchema(name: string)
    | CreateView(name: string)
    | CreateSequence(name: string)
    | DropTable(name: string)
    | DropSchema(name: string)
    | DropView(name: string)
    | DropSequence(name: string)
    /** The row ids of deleted rows. */
    | Delete(rowIds: seq<int>)
    /** New values of one column with the row id of each. */
    | Update(column: nat, values: seq<Value>, rowIds: seq<int>)
    /** Rows appended to the current table. */
    | Insert(rows: seq<Row>)
    | Query(text: string)

  class WriteAheadLog {
    /** Every record written so far, oldest first. */
    var records: seq<LogRecord>

    constructor()
      ensures records == []
    {
      records := [];
    }

    /** Adds one record at the end of the log. */
    method Write(record: LogRecord)
      modifies this
      ensures records == old(records) + [record]
    {
      records := records + [record];
    }
  }
}
