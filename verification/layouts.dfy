/**
 * The catalog of label-sheet geometries (`knownlayouts`). Only the grid
 * shape and the nominal card size are kept; page borders are floating-point
 * millimetre arithmetic and are not part of this model.
 */
module Layouts {
  import opened Common

  /**
   * One sheet product. Card sizes are in tenths of a millimetre so that
   * 50.8 mm is the exact integer 508; the inter-cell padding is in points.
   */
  datatype Layout = Layout(
    rows: int,
    cols: int,
    cardWidth: int,
    cardHeight: int,
    paddingX: int,
    paddingY: int,
    desc: string)
  {
    /** The placement arithmetic divides by both grid dimensions. */
    predicate Valid()
    {
      rows > 0 && cols > 0
    }

    /** Number of cells on one physical sheet. */
    function Capacity(): int
    {
      rows * cols
    }
  }

  const Herma4278 := Layout(5, 3, 700, 508, 0, 0, "HERMA Premium White Labels 70 x 50.8mm")
  const Herma4668 := Layout(7, 3, 700, 423, 0, 0, "HERMA Premium White Labels 70 x 42.3mm")
  const Apli1212 := Layout(8, 3, 700, 370, 0, 0, "APLI White Labels 70 x 37mm")

  /** The catalog in declaration order, as listed by `--layout-list`. */
  const Catalog: seq<(string, Layout)> :=
    [("4278", Herma4278), ("4668", Herma4668), ("1212", Apli1212)]

  /** The key used when no layout is chosen on the command line. */
  const DefaultKey := "1212"

  /** Catalog lookup; an unknown key is a configuration error, not a crash. */
  function Lookup(key: string): (r: Option<Layout>)
    ensures r.Some? <==> key in {"4278", "4668", "1212"}
    ensures r.Some? ==> r.value.Valid() && r.value.cols == 3 && r.value.cardWidth == 700
    ensures r.Some? ==> exists k :: 0 <= k < |Catalog| && Catalog[k] == (key, r.value)
  {
    LookupFrom(key, 0)
  }

  function LookupFrom(key: string, k: nat): (r: Option<Layout>)
    requires k <= |Catalog|
    ensures r.Some? ==> exists k' :: k <= k' < |Catalog| && Catalog[k'] == (key, r.value)
    ensures r.None? ==> forall k' :: k <= k' < |Catalog| ==> Catalog[k'].0 != key
    decreases |Catalog| - k
  {
    if k == |Catalog| then None
    else if Catalog[k].0 == key then Some(Catalog[k].1)
    else LookupFrom(key, k + 1)
  }

  /** Every catalog entry can drive the placement arithmetic. */
  lemma CatalogValid()
    ensures forall k :: 0 <= k < |Catalog| ==> Catalog[k].1.Valid()
    ensures forall k :: 0 <= k < |Catalog| ==> Catalog[k].1.paddingX == 0 && Catalog[k].1.paddingY == 0
  {
  }

  /** The default sheet holds 8 rows of 3 cards. */
  lemma DefaultLayoutShape()
    ensures Lookup(DefaultKey) == Some(Apli1212)
    ensures Apli1212.Capacity() == 24
  {
  }
}
