/**
 * The SQLite table `url_mapping (short_url TEXT PRIMARY KEY, original_url
 * TEXT NOT NULL)` as an object: whether the table exists, and its rows as a
 * map from short code to original URL. The primary key is the map's key, so
 * a short code has at most one row.
 */
module UrlStore {
  import opened Wrappers

  class Database {
    /** Whether `url_mapping` has been created in the database file. */
    var hasTable: bool
    /** The rows of `url_mapping`, keyed by `short_url`. */
    var rows: map<string, string>

    /**
     * A database file without `url_mapping` has no rows of it: the map of a
     * missing table is empty. The handlers run only once the table exists,
     * so this invariant is what makes `rows` meaningful before `CreateTable`.
     */
    ghost predicate Valid()
      reads this
    {
      !hasTable ==> rows == map[]
    }

    /** Opens the database file as it is found on disk. */
    constructor (existingTable: bool, existingRows: map<string, string>)
      requires existingTable || existingRows == map[]
      ensures Valid()
      ensures hasTable == existingTable && rows == existingRows
    {
      hasTable := existingTable;
      rows := existingRows;
    }

    /** `CREATE TABLE IF NOT EXISTS url_mapping (...)`: rows already there are kept. */
    method CreateTable()
      requires Valid()
      modifies this
      ensures Valid()
      ensures hasTable
      ensures rows == old(rows)
    {
      hasTable := true;
    }

    /**
     * `INSERT INTO url_mapping (short_url, original_url) VALUES (?, ?)`:
     * fails, changing nothing, when the key is taken.
     */
    method Insert(shortUrl: string, originalUrl: string) returns (ok: bool)
      requires Valid() && hasTable
      modifies this
      ensures Valid() && hasTable
      ensures ok <==> shortUrl !in old(rows)
      ensures rows == if ok then old(rows)[shortUrl := originalUrl] else old(rows)
    {
      if shortUrl in rows {
        ok := false;
      } else {
        rows := rows[shortUrl := originalUrl];
        ok := true;
      }
    }

    /** `SELECT original_url FROM url_mapping WHERE short_url = ?` followed by `fetchone()`. */
    method Select(shortUrl: string) returns (result: Option<string>)
      requires hasTable
      ensures result.Some? <==> shortUrl in rows
      ensures result.Some? ==> result.value == rows[shortUrl]
    {
      if shortUrl in rows {
        result := Some(rows[shortUrl]);
      } else {
        result := None;
      }
    }
  }

  /** `create_table()` at start-up: afterwards the table exists, whatever the file held. */
  method Startup(existingTable: bool, existingRows: map<string, string>) returns (db: Database)
    requires existingTable || existingRows == map[]
    ensures fresh(db)
    ensures db.Valid() && db.hasTable
    ensures db.rows == existingRows
  {
    db := new Database(existingTable, existingRows);
    db.CreateTable();
  }
}
