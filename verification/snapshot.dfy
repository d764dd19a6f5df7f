/** The two shipment tables the detector compares, and the cleaning step that
    makes their key cells comparable (`clean_dataframe`). */
module Snapshot {
  import opened Text

  /** The columns that cleaning and the change detection look at. */
  datatype Column = Destino | Fecha | Producto | Estado

  /** One shipment row: the three key cells, the status cell ("Estado de
      atención") and every other column of the row, carried along untouched. */
  datatype Row = Row(
    destino: string,
    fecha: string,
    producto: string,
    estado: string,
    extra: map<string, string>)

  /** A table: which of the four columns it has, and its rows in order. The
      cell of a column the table lacks is never read. */
  datatype Table = Table(columns: set<Column>, rows: seq<Row>)

  /** Text cleaning of one cell, applied only when its column exists. */
  function CleanCell(present: bool, s: string): string {
    if present then CleanText(s) else s
  }

  /** `foldDate` stands for date parsing followed by formatting as YYYY-MM-DD. */
  function CleanRow(columns: set<Column>, foldDate: string -> string, r: Row): Row {
    r.(destino := CleanCell(Destino in columns, r.destino),
       producto := CleanCell(Producto in columns, r.producto),
       estado := CleanCell(Estado in columns, r.estado),
       fecha := if Fecha in columns then foldDate(r.fecha) else r.fecha)
  }

  /** The cleaned copy of a table: same columns, same number of rows in the
      same order; of each row exactly the present Destino, Producto and
      Estado cells are stripped and upper-cased and the present Fecha cell is
      folded, while every other column is kept as it was. */
  function CleanTable(t: Table, foldDate: string -> string): (c: Table)
    ensures c.columns == t.columns
    ensures |c.rows| == |t.rows|
    ensures forall i :: 0 <= i < |t.rows| ==>
      && c.rows[i].extra == t.rows[i].extra
      && c.rows[i].destino == (if Destino in t.columns then CleanText(t.rows[i].destino) else t.rows[i].destino)
      && c.rows[i].producto == (if Producto in t.columns then CleanText(t.rows[i].producto) else t.rows[i].producto)
      && c.rows[i].estado == (if Estado in t.columns then CleanText(t.rows[i].estado) else t.rows[i].estado)
      && c.rows[i].fecha == (if Fecha in t.columns then foldDate(t.rows[i].fecha) else t.rows[i].fecha)
  {
    Table(t.columns, seq(|t.rows|, i requires 0 <= i < |t.rows| => CleanRow(t.columns, foldDate, t.rows[i])))
  }

  /** Cleaning a cleaned table again changes nothing, provided the date
      folding is itself idempotent (a formatted date parses to the same day). */
  lemma CleanTableIdempotent(t: Table, foldDate: string -> string)
    requires forall s :: foldDate(foldDate(s)) == foldDate(s)
    ensures CleanTable(CleanTable(t, foldDate), foldDate) == CleanTable(t, foldDate)
  {
    var c := CleanTable(t, foldDate);
    var cc := CleanTable(c, foldDate);
    forall i | 0 <= i < |t.rows| ensures cc.rows[i] == c.rows[i] {
      CleanTextIdempotent(t.rows[i].destino);
      CleanTextIdempotent(t.rows[i].producto);
      CleanTextIdempotent(t.rows[i].estado);
    }
  }
}
