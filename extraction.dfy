/**
 * The two small selection helpers: the product-name fallback chain of
 * `get_product_name` (main.py:114-136) and the line filter of
 * `get_links_from_file` (main.py:60-64).
 */
module Extraction {
  import opened Text

  /**
   * What `driver.find_element(By.CSS_SELECTOR, selector).text` gives:
   * the element's text, or an exception (no such element, stale element),
   * which the loop swallows.
   */
  datatype Lookup = Missing | Element(text: string)

  /** The selectors tried in order (main.py:117-123). */
  const NameSelectors: seq<string> := [
    "h1.product-page__title",
    ".product-page__header",
    "[data-tag='productName']",
    "h1",
    ".product-name"
  ]

  /** The fallback name, "unknown product". */
  const UnknownProduct: string := "Неизвестный товар"

  /** The lookup yields a name: an element whose stripped text is not empty. */
  predicate Yields(l: Lookup) {
    l.Element? && Strip(l.text) != []
  }

  /** The name the chain settles on: the first yielded stripped text, else the fallback. */
  function ChosenName(selectors: seq<string>, find: string -> Lookup): (name: string)
    ensures name != []
  {
    if selectors == [] then UnknownProduct
    else if Yields(find(selectors[0])) then Strip(find(selectors[0]).text)
    else ChosenName(selectors[1..], find)
  }

  /**
   * The position of the first selector that yields a name, or the number
   * of selectors when none does.
   */
  function FirstYield(selectors: seq<string>, find: string -> Lookup): (k: nat)
    ensures k <= |selectors|
    ensures forall j :: 0 <= j < k ==> !Yields(find(selectors[j]))
    ensures k < |selectors| ==> Yields(find(selectors[k]))
  {
    if selectors == [] || Yields(find(selectors[0])) then 0
    else
      var k := FirstYield(selectors[1..], find);
      assert forall j :: 0 < j < k + 1 ==> selectors[j] == selectors[1..][j - 1];
      k + 1
  }

  /**
   * The chosen name is the stripped text of the first selector that yields
   * one or, when none yields, the fallback.
   */
  lemma {:induction false} ChosenNameIsFirst(selectors: seq<string>, find: string -> Lookup)
    ensures var k := FirstYield(selectors, find);
      ChosenName(selectors, find) == if k < |selectors| then Strip(find(selectors[k]).text) else UnknownProduct
  {
    if selectors != [] && !Yields(find(selectors[0])) {
      ChosenNameIsFirst(selectors[1..], find);
    }
  }

  /** The fallback neither starts nor ends with whitespace. */
  lemma UnknownProductBare()
    ensures UnknownProduct != [] && !IsSpace(UnknownProduct[0]) && !IsSpace(UnknownProduct[|UnknownProduct| - 1])
  {
  }

  /** The chosen name never starts or ends with whitespace. */
  lemma {:induction false} ChosenNameStripped(selectors: seq<string>, find: string -> Lookup)
    ensures Strip(ChosenName(selectors, find)) == ChosenName(selectors, find)
  {
    if selectors == [] {
      UnknownProductBare();
      StripBare(UnknownProduct);
    } else if Yields(find(selectors[0])) {
      StripIdempotent(find(selectors[0]).text);
    } else {
      ChosenNameStripped(selectors[1..], find);
    }
  }

  /**
   * `get_product_name`: try each selector in turn and return the first
   * non-empty stripped text, or the fallback after the last one.
   */
  method GetProductName(find: string -> Lookup) returns (name: string)
    ensures name == ChosenName(NameSelectors, find)
    ensures name != []
  {
    var i := 0;
    while i < |NameSelectors|
      invariant 0 <= i <= |NameSelectors|
      invariant ChosenName(NameSelectors[i..], find) == ChosenName(NameSelectors, find)
    {
      var l := find(NameSelectors[i]);
      if l.Element? {
        var text := Strip(l.text);
        if text != [] {
          return text;
        }
      }
      assert NameSelectors[i..][1..] == NameSelectors[i + 1..];
      i := i + 1;
    }
    name := UnknownProduct;
  }

  /** `[line.strip() for line in lines if line.strip()]` */
  function GetLinks(lines: seq<string>): (links: seq<string>)
    ensures |links| <= |lines|
  {
    if lines == [] then []
    else
      var l := Strip(lines[0]);
      (if l != [] then [l] else []) + GetLinks(lines[1..])
  }

  lemma {:induction false} GetLinksConcat(a: seq<string>, b: seq<string>)
    ensures GetLinks(a + b) == GetLinks(a) + GetLinks(b)
  {
    if a == [] {
      assert a + b == b;
    } else {
      assert (a + b)[1..] == a[1..] + b;
      GetLinksConcat(a[1..], b);
    }
  }

  /** A line contributes its stripped text, or nothing when it is blank. */
  lemma GetLinksOne(line: string)
    ensures GetLinks([line]) == if AllSpace(line) then [] else [Strip(line)]
  {
    StripEmpty(line);
    assert [line][1..] == [];
  }

  /** Filtering the filtered list changes nothing. */
  lemma {:induction false} GetLinksIdempotent(lines: seq<string>)
    ensures GetLinks(GetLinks(lines)) == GetLinks(lines)
  {
    if lines != [] {
      var l := Strip(lines[0]);
      var head := if l != [] then [l] else [];
      GetLinksIdempotent(lines[1..]);
      GetLinksConcat(head, GetLinks(lines[1..]));
      if l != [] {
        StripIdempotent(lines[0]);
        assert [l][1..] == [];
      }
    }
  }

  /** No link is blank or carries surrounding whitespace. */
  lemma {:induction false} LinksAreStripped(lines: seq<string>)
    ensures forall k :: 0 <= k < |GetLinks(lines)| ==>
      GetLinks(lines)[k] != [] && Strip(GetLinks(lines)[k]) == GetLinks(lines)[k]
  {
    if lines != [] {
      var l := Strip(lines[0]);
      LinksAreStripped(lines[1..]);
      StripIdempotent(lines[0]);
      var head := if l != [] then [l] else [];
      assert GetLinks(lines) == head + GetLinks(lines[1..]);
    }
  }

  /** Every link is the stripped form of one of the lines. */
  lemma {:induction false} LinksComeFromLines(lines: seq<string>)
    ensures forall x :: x in GetLinks(lines) ==> exists y :: y in lines && x == Strip(y)
  {
    if lines != [] {
      var rest := lines[1..];
      LinksComeFromLines(rest);
      var l := Strip(lines[0]);
      var head := if l != [] then [l] else [];
      assert GetLinks(lines) == head + GetLinks(rest);
      forall x | x in GetLinks(lines) ensures exists y :: y in lines && x == Strip(y) {
        if x in head {
          assert lines[0] in lines;
        } else {
          var y :| y in rest && x == Strip(y);
          assert y in lines;
        }
      }
    }
  }
}
