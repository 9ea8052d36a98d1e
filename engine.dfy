/** The statement texts the storage engines accept for a queue table named
    `<prefix>q`. A backend's statement is carried out as the table operation
    it denotes only when its text is one of these; any other text (a column
    the schema lacks, a fragment with no verb, a malformed operator) fails
    when it is prepared. PostgreSQL and SQLite each accept only their own
    statements. */
module Engine {

  /** The queue table of a prefix. */
  function TableName(prefix: string): string
  {
    prefix + "q"
  }

  /** The id sequence of a PostgreSQL queue table. */
  function SequenceName(prefix: string): string
  {
    prefix + "q_id_seq"
  }

  /** The index over checkout and timestamp (over topic and timestamp in the
      topic queue). */
  function IndexName(prefix: string): string
  {
    prefix + "q_timestamp_idx"
  }

  /** PostgreSQL: the id sequence `sq`, the table `tb` whose ids default to
      the next value of `sq`, and the index `ix` over checkout then
      timestamp. */
  function SchemaScript(sq: string, tb: string, ix: string): string
  {
    "\nCREATE SEQUENCE IF NOT EXISTS " + sq + ";\nCREATE TABLE IF NOT EXISTS " + tb
    + " (\n\tid INT8 NOT NULL DEFAULT nextval('" + sq
    + "') PRIMARY KEY,\n\ttimestamp TIMESTAMP NOT NULL DEFAULt now(),\n\tcheckout TIMESTAMP,\n\tpayload BYTEA\n);\nCREATE INDEX IF NOT EXISTS "
    + ix + " ON " + tb + " (checkout ASC NULLS FIRST, timestamp ASC);\n"
  }

  /** PostgreSQL: autovacuum settings on table `tb` (vacuum and analyze
      driven by fixed row thresholds rather than by table size). */
  function AutovacuumScript(tb: string): string
  {
    "ALTER TABLE " + tb + " SET (autovacuum_vacuum_scale_factor = 0.0);\n"
    + "ALTER TABLE " + tb + " SET (autovacuum_vacuum_threshold = 250000);\n"
    + "ALTER TABLE " + tb + " SET (autovacuum_analyze_scale_factor = 0.0);\n"
    + "ALTER TABLE " + tb + " SET (autovacuum_analyze_threshold = 50000);\n"
  }

  /** PostgreSQL: drop the table `tb`, then the sequence `sq`. */
  function DropScript(tb: string, sq: string): string
  {
    "\nDROP TABLE IF EXISTS " + tb + ";\nDROP SEQUENCE IF EXISTS " + sq + ";\n"
  }

  /** SQLite: the table `tb` with an autoincrement id, and the index `ix`
      over checkout then timestamp. */
  function LiteSchemaScript(tb: string, ix: string): string
  {
    "\nCREATE TABLE IF NOT EXISTS " + tb
    + " (\n\tid INTEGER PRIMARY KEY AUTOINCREMENT,\n\ttimestamp TIMESTAMP NOT NULL DEFAULT CURRENT_TIMESTAMP,\n\tcheckout TIMESTAMP,\n\tpayload BLOB\n);\nCREATE INDEX IF NOT EXISTS "
    + ix + " ON " + tb + " (checkout ASC, timestamp ASC);\n"
  }

  /** SQLite: drop the table `tb`. */
  function LiteDropScript(tb: string): string
  {
    "\nDROP TABLE IF EXISTS " + tb + ";\n"
  }

  /** PostgreSQL, topic queue: the id sequence `sq`, the table `tb` with a
      topic column and no checkout, and the index `ix` over topic then
      timestamp. */
  function TopicSchemaScript(sq: string, tb: string, ix: string): string
  {
    "\nCREATE SEQUENCE IF NOT EXISTS " + sq + ";\nCREATE TABLE IF NOT EXISTS " + tb
    + " (\n\tid INT8 NOT NULL DEFAULT nextval('" + sq
    + "') PRIMARY KEY,\n\ttimestamp TIMESTAMP NOT NULL DEFAULt now(),\n\ttopic TEXT,\n\tpayload BYTEA\n);\nCREATE INDEX IF NOT EXISTS "
    + ix + " ON " + tb + " (topic, timestamp ASC);\n"
  }

  /** PostgreSQL: claim up to `$1` unclaimed rows, oldest first, and return
      them. */
  function ClaimStatement(prefix: string): string
  {
    "UPDATE " + prefix + ("q SET checkout = now() " + "WHERE id IN (SELECT id FROM ") + prefix
    + ("q WHERE checkout " + "IS null ")
    + (" ORDER BY checkout ASC " + "NULLS FIRST, timestamp ASC " + "FOR UPDATE SKIP LOCKED "
       + "LIMIT $1) RETURNING id, payload;")
  }

  /** PostgreSQL: delete the rows whose id is in the array `$1`. */
  function DeleteAnyStatement(prefix: string): string
  {
    "DELETE FROM " + prefix + "q WHERE id = ANY($1)"
  }

  /** PostgreSQL: the rows of one topic, oldest first, at most `$2` of them. */
  function TopicSelectStatement(prefix: string): string
  {
    "SELECT id, topic, payload FROM " + prefix
    + ("q WHERE topic = $1 " + "ORDER BY timestamp ASC " + "FOR UPDATE SKIP LOCKED " + "LIMIT $2;")
  }

  /** SQLite: the unclaimed rows, oldest first, at most `$1` of them. */
  function SelectStatement(prefix: string): string
  {
    "SELECT id, payload FROM " + prefix + ("q WHERE checkout " + "IS null")
    + (" ORDER BY checkout ASC, " + "timestamp ASC LIMIT $1;")
  }

  /** SQLite: stamp the rows whose id matches the single parameter. */
  function UpdateStatement(prefix: string): string
  {
    "UPDATE " + prefix + ("q SET checkout = DATETIME('now') " + "WHERE id IN (?);")
  }

  /** SQLite: insert one row with the given payload. */
  function InsertStatement(prefix: string): string
  {
    "INSERT INTO " + prefix + "q (payload) VALUES(?);"
  }

  /** SQLite: delete the rows whose id matches the single parameter, in the
      `IN (?)` form of the update statement. */
  function LiteDeleteStatement(prefix: string): string
  {
    "DELETE FROM " + prefix + "q WHERE id IN (?)"
  }

  /** Whether PostgreSQL prepares `text` for the queue table of `prefix`. */
  predicate PgPrepares(text: string, prefix: string)
  {
    text in {ClaimStatement(prefix), DeleteAnyStatement(prefix), TopicSelectStatement(prefix)}
  }

  /** Whether SQLite prepares `text` for the queue table of `prefix`. */
  predicate LitePrepares(text: string, prefix: string)
  {
    text in {SelectStatement(prefix), UpdateStatement(prefix), InsertStatement(prefix), LiteDeleteStatement(prefix)}
  }

  /** The claim statement names the table twice. */
  lemma ClaimStatementLength(prefix: string)
    ensures |ClaimStatement(prefix)| == 2 * |prefix| + 188
  {
  }

  /** Every statement starts with its verb. */
  lemma Verbs(prefix: string)
    ensures ClaimStatement(prefix)[0] == 'U' && UpdateStatement(prefix)[0] == 'U'
    ensures DeleteAnyStatement(prefix)[0] == 'D' && LiteDeleteStatement(prefix)[0] == 'D'
    ensures InsertStatement(prefix)[0] == 'I'
    ensures TopicSelectStatement(prefix)[0] == 'S' && SelectStatement(prefix)[0] == 'S'
  {
    ClaimVerb(prefix);
    SelectVerbs(prefix);
  }

  lemma ClaimVerb(prefix: string)
    ensures ClaimStatement(prefix)[0] == 'U'
  {
  }

  lemma SelectVerbs(prefix: string)
    ensures TopicSelectStatement(prefix)[0] == 'S' && SelectStatement(prefix)[0] == 'S'
  {
  }

  /** A text that starts with neither `U`, `S`, `D` nor `I` is not a
      statement of either engine: every statement starts with its verb. */
  lemma NoVerb(text: string, prefix: string)
    requires |text| > 0 && text[0] !in "USDI"
    ensures !PgPrepares(text, prefix) && !LitePrepares(text, prefix)
  {
    Verbs(prefix);
  }

  /** A text that starts with `U` is prepared by PostgreSQL only when it is
      the claim statement. */
  lemma PgUpdateVerb(text: string, prefix: string)
    requires |text| > 0 && text[0] == 'U' && text != ClaimStatement(prefix)
    ensures !PgPrepares(text, prefix)
  {
    Verbs(prefix);
  }

  /** The SQLite delete statement is 29 characters longer than the prefix. */
  lemma LiteDeleteStatementLength(prefix: string)
    ensures |LiteDeleteStatement(prefix)| == |prefix| + 29
  {
  }

  /** A text that starts with `D` is prepared by SQLite only when it is the
      delete statement. */
  lemma LiteDeleteVerb(text: string, prefix: string)
    requires |text| > 0 && text[0] == 'D' && text != LiteDeleteStatement(prefix)
    ensures !LitePrepares(text, prefix)
  {
    Verbs(prefix);
  }
}
