/**
 * The build statistics printed at the end of a successful build: the number
 * of photos, of featured photos, and of distinct categories and locations in
 * the portfolio's photo list.
 */
module Statistics {
  import opened Sequences

  /** The fields of a portfolio photo record that the statistics read; `featured` is its truthiness. */
  datatype Photo = Photo(category: string, location: string, featured: bool)

  datatype Stats = Stats(photos: nat, featured: nat, categories: nat, locations: nat)

  /** `photos.filter(p => p.featured)`. */
  function FeaturedPhotos(ps: seq<Photo>): (r: seq<Photo>)
    ensures |r| <= |ps|
    ensures forall p :: p in r <==> p in ps && p.featured
  {
    if ps == [] then []
    else
      var init, last := ps[..|ps| - 1], ps[|ps| - 1];
      assert ps == init + [last];
      var r := FeaturedPhotos(init);
      if last.featured then r + [last] else r
  }

  /** The positions of the featured photos. */
  function FeaturedIndices(ps: seq<Photo>): set<int> {
    set i | 0 <= i < |ps| && ps[i].featured
  }

  /** `[...new Set(xs)]`: each value once, in the order of its first occurrence. */
  function Distinct(xs: seq<string>): (r: seq<string>)
    ensures NoDuplicates(r)
    ensures forall x :: x in r <==> x in xs
    ensures |r| <= |xs|
  {
    if xs == [] then []
    else
      var init, last := xs[..|xs| - 1], xs[|xs| - 1];
      assert xs == init + [last];
      var d := Distinct(init);
      if last in d then d else d + [last]
  }

  /** `photos.map(p => p.category)`. */
  function Categories(ps: seq<Photo>): (r: seq<string>)
    ensures |r| == |ps|
  {
    seq(|ps|, i requires 0 <= i < |ps| => ps[i].category)
  }

  /** `photos.map(p => p.location)`. */
  function Locations(ps: seq<Photo>): (r: seq<string>)
    ensures |r| == |ps|
  {
    seq(|ps|, i requires 0 <= i < |ps| => ps[i].location)
  }

  /** The four numbers of the build summary. */
  function Compute(ps: seq<Photo>): (s: Stats)
    ensures s.photos == |ps|
    ensures s.featured == |FeaturedIndices(ps)|
    ensures s.categories == |set p | p in ps :: p.category|
    ensures s.locations == |set p | p in ps :: p.location|
    ensures s.featured <= s.photos && s.categories <= s.photos && s.locations <= s.photos
    ensures s.categories == 0 <==> ps == []
    ensures s.locations == 0 <==> ps == []
  {
    FeaturedCount(ps);
    DistinctCount(Categories(ps));
    DistinctCount(Locations(ps));
    MappedValues(ps);
    assert ps != [] ==> Categories(ps)[0] in Categories(ps) && Locations(ps)[0] in Locations(ps);
    Stats(|ps|, |FeaturedPhotos(ps)|, |Distinct(Categories(ps))|, |Distinct(Locations(ps))|)
  }

  // ================================================================ lemmas

  /** The featured positions of a list extended by one photo. */
  lemma {:induction false} FeaturedIndicesSnoc(init: seq<Photo>, last: Photo)
    ensures FeaturedIndices(init + [last]) == FeaturedIndices(init) + (if last.featured then {|init|} else {})
  {
    var ps := init + [last];
    forall i | 0 <= i < |init| ensures ps[i] == init[i] {
    }
  }

  /** The filter keeps exactly one photo per featured position. */
  lemma {:induction false} FeaturedCount(ps: seq<Photo>)
    ensures |FeaturedPhotos(ps)| == |FeaturedIndices(ps)|
  {
    if ps != [] {
      var init, last := ps[..|ps| - 1], ps[|ps| - 1];
      assert ps == init + [last];
      FeaturedCount(init);
      FeaturedIndicesSnoc(init, last);
      assert |init| !in FeaturedIndices(init);
    }
  }

  /** The distinct values are as many as the set of values. */
  lemma {:induction false} DistinctCount(xs: seq<string>)
    ensures |Distinct(xs)| == |set x | x in xs|
  {
    var d := Distinct(xs);
    DistinctElements(d);
    assert (set x | x in d) == (set x | x in xs);
  }

  /** The mapped sequences hold exactly the photos' categories and locations. */
  lemma {:induction false} MappedValues(ps: seq<Photo>)
    ensures (set x | x in Categories(ps)) == (set p | p in ps :: p.category)
    ensures (set x | x in Locations(ps)) == (set p | p in ps :: p.location)
  {
    forall x | x in Categories(ps) ensures x in (set p | p in ps :: p.category) {
      var i :| 0 <= i < |ps| && Categories(ps)[i] == x;
      assert ps[i] in ps;
    }
    forall x | x in Locations(ps) ensures x in (set p | p in ps :: p.location) {
      var i :| 0 <= i < |ps| && Locations(ps)[i] == x;
      assert ps[i] in ps;
    }
    forall x | x in (set p | p in ps :: p.category) ensures x in Categories(ps) {
      var i :| 0 <= i < |ps| && ps[i].category == x;
      assert Categories(ps)[i] == x;
    }
    forall x | x in (set p | p in ps :: p.location) ensures x in Locations(ps) {
      var i :| 0 <= i < |ps| && ps[i].location == x;
      assert Locations(ps)[i] == x;
    }
  }

  /** Photos sharing one category count as one category, whatever their number. */
  lemma {:induction false} OneCategory(ps: seq<Photo>, c: string)
    requires ps != [] && forall i | 0 <= i < |ps| :: ps[i].category == c
    ensures Compute(ps).categories == 1
  {
    assert (set p | p in ps :: p.category) == {c} by {
      assert ps[0] in ps;
    }
  }
}
