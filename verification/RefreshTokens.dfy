/** The refresh_tokens table and the four statements that touch it. */
module RefreshTokens {
  import opened Common

  datatype Token = Token(userId: int, hash: string, expiresAt: int, revokedAt: Option<int>)

  /** The rows of refresh_tokens by primary key. */
  type Table = map<int, Token>

  predicate Live(t: Token) { t.revokedAt.None? }

  predicate HashFree(rows: Table, hash: string) {
    forall id :: id in rows ==> rows[id].hash != hash
  }

  /** The UNIQUE constraint on token_hash. */
  ghost predicate UniqueHashes(rows: Table) {
    forall i, j :: i in rows && j in rows && rows[i].hash == rows[j].hash ==> i == j
  }

  /** What SELECT ... WHERE token_hash = $1 may answer. */
  predicate IsLookup(rows: Table, hash: string, found: Option<int>) {
    match found
    case None => HashFree(rows, hash)
    case Some(id) => id in rows && rows[id].hash == hash
  }

  /** UPDATE ... SET revoked_at = now() WHERE id = $1 AND revoked_at IS NULL. */
  function RevokeRow(rows: Table, id: int, now: int): Table {
    if id in rows && Live(rows[id]) then rows[id := rows[id].(revokedAt := Some(now))] else rows
  }

  /** UPDATE ... SET revoked_at = now() WHERE user_id = $1 AND revoked_at IS NULL. */
  function RevokeUser(rows: Table, userId: int, now: int): Table {
    map id | id in rows ::
      if rows[id].userId == userId && Live(rows[id]) then rows[id].(revokedAt := Some(now)) else rows[id]
  }

  /** Every row is still there, and the only change is that some live rows
      have been revoked. */
  ghost predicate OnlyRevokes(before: Table, after: Table) {
    && before.Keys == after.Keys
    && forall id :: id in before ==> RowAges(before[id], after[id])
  }

  predicate RowAges(before: Token, after: Token) {
    && after.(revokedAt := None) == before.(revokedAt := None)
    && (!Live(before) ==> after == before)
  }
}
