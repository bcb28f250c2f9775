/**
 * The route columns of the contacts table: three nullable columns for the learned route, three for the operator's
 * override, written by upserts and updates and normalised again on every read.
 */
module ContactTable {
  import opened Common
  import opened ContactRoutes

  type Key = string

  datatype Columns = Columns(path: Option<string>, len: Option<int>, mode: Option<int>)

  datatype Row = Row(direct: Columns, override: Columns)

  const NULLS := Columns(None, None, None)

  function Coalesce<T>(a: Option<T>, b: Option<T>): Option<T> {
    if a.Some? then a else b
  }

  /** COALESCE(excluded, stored), column by column. */
  function CoalesceColumns(a: Columns, b: Columns): Columns {
    Columns(Coalesce(a.path, b.path), Coalesce(a.len, b.len), Coalesce(a.mode, b.mode))
  }

  function AsColumns(r: Route): Columns {
    Columns(Some(r.path), Some(r.len), Some(r.mode))
  }

  function NormalizeColumns(c: Columns): Route {
    Normalize(c.path, c.len, c.mode)
  }

  /** `normalize_route_override`: an unset length keeps the override unset. */
  function NormalizeOverride(c: Columns): Columns {
    if c.len.None? then NULLS else AsColumns(NormalizeColumns(c))
  }

  function NormalizeDirect(c: Columns): Columns {
    if c == NULLS then NULLS else AsColumns(NormalizeColumns(c))
  }

  class Contacts {
    var rows: map<Key, Row>
    // the arguments of the last write that set each route; no entry while the route is null
    ghost var directFrom: map<Key, Columns>
    ghost var overrideFrom: map<Key, Columns>

    /** No stored triple mixes two writes: each is null, or what normalising one write's arguments gives. */
    ghost predicate Valid()
      reads this
    {
      && directFrom.Keys <= rows.Keys && overrideFrom.Keys <= rows.Keys
      && forall k :: k in rows ==>
                       && rows[k].direct ==
                            (if k in directFrom then AsColumns(NormalizeColumns(directFrom[k])) else NULLS)
                       && rows[k].override ==
                            (if k in overrideFrom then AsColumns(NormalizeColumns(overrideFrom[k])) else NULLS)
    }

    constructor ()
      ensures Valid() && rows == map[] && directFrom == map[] && overrideFrom == map[]
    {
      rows, directFrom, overrideFrom := map[], map[], map[];
    }

    /** Insert or merge.  A route given with any non-null field replaces the stored one whole, an all-null one keeps
        it. */
    method Upsert(publicKey: Key, direct: Columns, override: Columns)
      requires Valid()
      modifies this
      ensures Valid()
      ensures rows.Keys == old(rows.Keys) + {Lower(publicKey)}
      ensures forall k :: k in old(rows) && k != Lower(publicKey) ==> rows[k] == old(rows)[k]
      ensures directFrom == if direct == NULLS then old(directFrom) else old(directFrom)[Lower(publicKey) := direct]
      ensures overrideFrom ==
              if override.len.None? then old(overrideFrom) else old(overrideFrom)[Lower(publicKey) := override]
    {
      var key := Lower(publicKey);
      var newDirect := NormalizeDirect(direct);
      var newOverride := NormalizeOverride(override);
      if key in rows {
        rows := rows[key := Row(CoalesceColumns(newDirect, rows[key].direct),
                                CoalesceColumns(newOverride, rows[key].override))];
      } else {
        rows := rows[key := Row(newDirect, newOverride)];
      }
      if direct != NULLS { directFrom := directFrom[key := direct]; }
      if override.len.Some? { overrideFrom := overrideFrom[key := override]; }
    }

    method UpdateDirectPath(publicKey: Key, path: string, pathLen: int, mode: Option<int>)
      requires Valid()
      modifies this
      ensures Valid() && rows.Keys == old(rows.Keys) && overrideFrom == old(overrideFrom)
      ensures forall k :: k in rows && k != Lower(publicKey) ==> rows[k] == old(rows)[k]
      ensures directFrom ==
              if Lower(publicKey) !in rows then old(directFrom)
              else old(directFrom)[Lower(publicKey) := Columns(Some(path), Some(pathLen), mode)]
    {
      var key := Lower(publicKey);
      var r := Normalize(Some(path), Some(pathLen), mode);
      if key in rows {
        var stored := rows[key].direct.mode;
        rows := rows[key := rows[key].(direct := Columns(Some(r.path), Some(r.len), Coalesce(Some(r.mode), stored)))];
        directFrom := directFrom[key := Columns(Some(path), Some(pathLen), mode)];
      }
    }

    method SetRoutingOverride(publicKey: Key, c: Columns)
      requires Valid()
      modifies this
      ensures Valid() && rows.Keys == old(rows.Keys) && directFrom == old(directFrom)
      ensures forall k :: k in rows && k != Lower(publicKey) ==> rows[k] == old(rows)[k]
      ensures overrideFrom == if Lower(publicKey) !in rows then old(overrideFrom)
                              else if c.len.None? then old(overrideFrom) - {Lower(publicKey)}
                              else old(overrideFrom)[Lower(publicKey) := c]
    {
      var key := Lower(publicKey);
      if key in rows {
        rows := rows[key := rows[key].(override := NormalizeOverride(c))];
        overrideFrom := if c.len.None? then overrideFrom - {key} else overrideFrom[key := c];
      }
    }

    method ClearRoutingOverride(publicKey: Key)
      requires Valid()
      modifies this
      ensures Valid() && rows.Keys == old(rows.Keys) && directFrom == old(directFrom)
      ensures forall k :: k in rows && k != Lower(publicKey) ==> rows[k] == old(rows)[k]
      ensures overrideFrom == old(overrideFrom) - {Lower(publicKey)}
    {
      var key := Lower(publicKey);
      if key in rows {
        rows := rows[key := rows[key].(override := NULLS)];
      }
      overrideFrom := overrideFrom - {key};
    }

    /** Reading after any run of writes: a route whose last write was not Unstable comes back as it is stored, both
        from the row and from the contact built of it. */
    lemma ReadingIsIdentity(k: Key)
      requires Valid() && k in rows
      ensures k in directFrom && !UnstableColumns(directFrom[k]) ==>
                AsColumns(ReadDirect(rows[k])) == rows[k].direct
      ensures k !in directFrom ==> ReadDirect(rows[k]) == FLOOD
      ensures k !in overrideFrom || !UnstableColumns(overrideFrom[k]) ==>
                NormalizeOverride(rows[k].override) == rows[k].override
      ensures (k in directFrom ==> !UnstableColumns(directFrom[k]))
              && (k in overrideFrom ==> !UnstableColumns(overrideFrom[k])) ==>
                EffectiveRoute(rows[k]) ==
                  (if k in overrideFrom then (NormalizeColumns(overrideFrom[k]), FromOverride)
                   else if k in directFrom && NormalizeColumns(directFrom[k]).len >= 0
                   then (NormalizeColumns(directFrom[k]), FromDirect)
                   else (FLOOD, Flooding))
    {
      if k in directFrom {
        var c := directFrom[k];
        NormalizeIdempotent(c.path, c.len, c.mode);
        EmptyPathIsNull(c);
      }
      if k in overrideFrom {
        var c := overrideFrom[k];
        NormalizeIdempotent(c.path, c.len, c.mode);
      }
    }
  }

  predicate UnstableColumns(c: Columns) {
    Unstable(c.path, c.len, c.mode)
  }

  /** `_row_to_contact`, learned route. */
  function ReadDirect(row: Row): Route {
    NormalizeColumns(row.direct)
  }

  datatype RouteSource = FromOverride | FromDirect | Flooding

  /** `path or None` */
  function OrNone(path: Option<string>): Option<string> {
    if path == Some("") then None else path
  }

  /** The route a contact built from a row is reached by: the row is normalised on read, again when the contact is
      built, and once more when the route is used. */
  function EffectiveRoute(row: Row): (Route, RouteSource) {
    var read := ReadDirect(row);
    var direct := Renormalize(read);
    var override := NormalizeOverride(NormalizeOverride(row.override));
    if override.len.Some? then (Normalize(OrNone(override.path), override.len, override.mode), FromOverride)
    else if direct.len >= 0 then (Normalize(OrNone(Some(direct.path)), Some(direct.len), Some(direct.mode)), FromDirect)
    else (FLOOD, Flooding)
  }

  /** A null path and an empty one normalise alike, so dropping empty paths loses nothing. */
  lemma EmptyPathIsNull(c: Columns)
    ensures Normalize(OrNone(c.path), c.len, c.mode) == NormalizeColumns(c)
  {
  }
}
