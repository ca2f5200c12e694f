/**
 * The free-text "additional amenities" of a restaurant: a comma-separated
 * list typed by the owner. `AdditionalAmenitiesList` is how the stored text is
 * read back as a list (restaurants/models.py), `NormalizeAdditionalAmenities`
 * is how the serializer cleans the text before it is stored
 * (restaurants/serializers.py).
 */
module Amenities {
  import opened Text

  /** `[p.strip() for p in pieces]`. */
  function StripEach(pieces: seq<string>): (r: seq<string>)
    ensures |r| == |pieces|
    ensures forall i :: 0 <= i < |r| ==> r[i] == Strip(pieces[i])
  {
    if pieces == [] then [] else [Strip(pieces[0])] + StripEach(pieces[1..])
  }

  /** Keeps the non-empty strings, in order (`filter(None, items)`, or the
      `if p.strip()` guard of a comprehension). */
  function DropEmpty(items: seq<string>): (r: seq<string>)
    ensures |r| <= |items|
    ensures forall x :: x in r ==> x in items && x != []
  {
    if items == [] then []
    else (if items[0] == [] then [] else [items[0]]) + DropEmpty(items[1..])
  }

  /** Dropping empties works piecewise, so the kept elements stay in input order. */
  lemma {:induction false} DropEmptyAppend(a: seq<string>, b: seq<string>)
    ensures DropEmpty(a + b) == DropEmpty(a) + DropEmpty(b)
  {
    if a == [] {
      assert a + b == b;
    } else {
      assert (a + b)[0] == a[0] && (a + b)[1..] == a[1..] + b;
      DropEmptyAppend(a[1..], b);
    }
  }

  /** An element of the amenities list: non-empty, no surrounding whitespace, no comma. */
  predicate CleanAmenity(x: string) {
    x != [] && Stripped(x) && ',' !in x
  }

  /** Stripping keeps a comma-free piece comma-free and leaves it stripped. */
  lemma StripEachClean(pieces: seq<string>)
    requires forall i :: 0 <= i < |pieces| ==> ',' !in pieces[i]
    ensures forall i :: 0 <= i < |pieces| ==> Stripped(StripEach(pieces)[i]) && ',' !in StripEach(pieces)[i]
  {
    forall i | 0 <= i < |pieces|
      ensures Stripped(StripEach(pieces)[i]) && ',' !in StripEach(pieces)[i]
    {
      var p := pieces[i];
      assert StripEach(pieces)[i] == Strip(p);
    }
  }

  /** `RestaurantAmenities.get_additional_amenities_list`. */
  function AdditionalAmenitiesList(value: string): (r: seq<string>)
    ensures value == [] ==> r == []
    ensures forall i :: 0 <= i < |r| ==> CleanAmenity(r[i])
    ensures |r| <= Count(value, ',') + 1
  {
    if value == [] then []
    else
      var pieces := Split(value, ',');
      StripEachClean(pieces);
      var stripped := StripEach(pieces);
      DropEmptyClean(stripped);
      DropEmpty(stripped)
  }

  /** Dropping the empty pieces of stripped, comma-free pieces leaves clean amenities. */
  lemma DropEmptyClean(pieces: seq<string>)
    requires forall i :: 0 <= i < |pieces| ==> Stripped(pieces[i]) && ',' !in pieces[i]
    ensures forall i :: 0 <= i < |DropEmpty(pieces)| ==> CleanAmenity(DropEmpty(pieces)[i])
  {
    var r := DropEmpty(pieces);
    forall i | 0 <= i < |r| ensures CleanAmenity(r[i]) {
      assert r[i] in r;
      var k :| 0 <= k < |pieces| && pieces[k] == r[i];
    }
  }

  /** `RestaurantAmenitiesSerializer.validate_additional_amenities`. */
  function NormalizeAdditionalAmenities(value: string): string {
    if value != [] then Join(DropEmpty(StripEach(Split(value, ','))), ", ") else value
  }

  /** The normalised text is the list, re-joined with ", ". */
  lemma NormalizeIsJoinedList(value: string)
    ensures NormalizeAdditionalAmenities(value) == Join(AdditionalAmenitiesList(value), ", ")
  {
  }

  lemma SplitWithoutSeparator(x: string, sep: char)
    requires sep !in x
    ensures Split(x, sep) == [x]
  {
    CountAbsent(x, sep);
    JoinSplit(x, sep);
  }

  lemma {:induction false} CountAbsent(x: string, c: char)
    requires c !in x
    ensures Count(x, c) == 0
  {
    if x != [] {
      assert c !in x[1..] by { assert forall d :: d in x[1..] ==> d in x; }
      CountAbsent(x[1..], c);
    }
  }

  lemma StripEachCons(x: string, xs: seq<string>)
    ensures StripEach([x] + xs) == [Strip(x)] + StripEach(xs)
  {
    assert ([x] + xs)[1..] == xs;
  }

  lemma DropEmptyCons(x: string, xs: seq<string>)
    ensures DropEmpty([x] + xs) == (if x == [] then [] else [x]) + DropEmpty(xs)
  {
    assert ([x] + xs)[1..] == xs;
  }

  /** Joining a list of two or more elements puts ", " after the first. */
  lemma JoinCons(items: seq<string>)
    requires |items| >= 2
    ensures Join(items, ", ") == items[0] + [','] + ([' '] + Join(items[1..], ", "))
  {
  }

  /** A leading blank does not change the stripped pieces. */
  lemma StripEachAfterBlank(j: string)
    ensures StripEach(Split([' '] + j, ',')) == StripEach(Split(j, ','))
  {
    var pj := Split(j, ',');
    var x := Split([' '] + j, ',');
    SplitCons(' ', j, ',');
    assert x[0] == [' '] + pj[0] && x[1..] == pj[1..];
    StripLeadingSpace(' ', pj[0]);
    assert StripEach(x) == [Strip(pj[0])] + StripEach(pj[1..]);
  }

  /** The text joined from a non-empty list of clean elements is not empty. */
  lemma JoinedNotEmpty(items: seq<string>)
    requires items != [] && items[0] != []
    ensures Join(items, ", ") != []
  {
  }

  /** Reading back a list that was joined with ", " gives the list again,
      provided every element is a clean amenity. */
  lemma {:induction false} ListOfJoined(items: seq<string>)
    requires forall i :: 0 <= i < |items| ==> CleanAmenity(items[i])
    ensures AdditionalAmenitiesList(Join(items, ", ")) == items
  {
    if items == [] {
    } else if |items| == 1 {
      SplitWithoutSeparator(items[0], ',');
      StripEachCons(items[0], []);
      DropEmptyCons(items[0], []);
    } else {
      var x, rest := items[0], items[1..];
      ListOfJoined(rest);
      JoinedNotEmpty(rest);
      JoinCons(items);
      ListOfJoinedStep(x, Join(rest, ", "));
    }
  }

  /** One more clean element in front of a joined, non-empty text. */
  lemma ListOfJoinedStep(x: string, j: string)
    requires CleanAmenity(x) && j != []
    ensures AdditionalAmenitiesList(x + [','] + ([' '] + j)) == [x] + AdditionalAmenitiesList(j)
  {
    var tail := Split([' '] + j, ',');
    SplitAfterPiece(x, [' '] + j, ',');
    assert Split(x + [','] + ([' '] + j), ',') == [x] + tail;
    StripEachCons(x, tail);
    StripEachAfterBlank(j);
    var stripped := StripEach(Split(j, ','));
    assert StripEach([x] + tail) == [x] + stripped;
    DropEmptyCons(x, stripped);
    assert DropEmpty([x] + stripped) == [x] + DropEmpty(stripped);
  }

  /** Round trip: the normalised text reads back as the same list as the original text. */
  lemma NormalizeRoundTrip(value: string)
    ensures AdditionalAmenitiesList(NormalizeAdditionalAmenities(value)) == AdditionalAmenitiesList(value)
  {
    var items := AdditionalAmenitiesList(value);
    NormalizeIsJoinedList(value);
    ListOfJoined(items);
  }

  /** Normalising twice is the same as normalising once. */
  lemma NormalizeIdempotent(value: string)
    ensures NormalizeAdditionalAmenities(NormalizeAdditionalAmenities(value)) == NormalizeAdditionalAmenities(value)
  {
    var once := NormalizeAdditionalAmenities(value);
    NormalizeIsJoinedList(once);
    NormalizeRoundTrip(value);
    NormalizeIsJoinedList(value);
  }

  predicate OnlySeparators(s: string) {
    forall i :: 0 <= i < |s| ==> s[i] == ',' || IsSpace(s[i])
  }

  lemma {:induction false} PiecesOfSeparatorsAreBlank(s: string)
    requires OnlySeparators(s)
    ensures forall i :: 0 <= i < |Split(s, ',')| ==> AllSpace(Split(s, ',')[i])
  {
    if s != [] {
      PiecesOfSeparatorsAreBlank(s[1..]);
      if s[0] != ',' {
        var t := Split(s[1..], ',');
        assert Split(s, ',')[0] == [s[0]] + t[0];
      }
    }
  }

  lemma {:induction false} DropEmptyOfBlanks(items: seq<string>)
    requires forall i :: 0 <= i < |items| ==> items[i] == []
    ensures DropEmpty(items) == []
  {
    if items != [] {
      DropEmptyOfBlanks(items[1..]);
    }
  }

  /** Text made only of commas and whitespace normalises to the empty string. */
  lemma NormalizeOnlySeparators(value: string)
    requires OnlySeparators(value)
    ensures NormalizeAdditionalAmenities(value) == []
  {
    if value != [] {
      PiecesOfSeparatorsAreBlank(value);
      var stripped := StripEach(Split(value, ','));
      DropEmptyOfBlanks(stripped);
    }
  }
}
