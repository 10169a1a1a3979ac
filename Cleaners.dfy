/** The field cleaners `clean_quantity` and `clean_price` (nbv2.py): the text a
    listing row shows for its quantity and for its price, turned into an
    integer, or `None` when the text is not an integer literal or the value is
    not a string. Neither raises: every failure is a `None`. */
module Cleaners {
  import opened Wrappers
  import opened PyText

  /** A cleaner's argument: a Python `str`, or a value of any other type. */
  datatype Field = Str(text: string) | NotStr

  /** `clean_quantity`: every space deleted, then `int()`. */
  function CleanQuantity(f: Field): (r: Option<int>)
    ensures f.NotStr? ==> r == None
  {
    match f
    case NotStr => None
    case Str(s) => ParseInt(Replace(s, " ", ""))
  }

  /** The text `clean_price` hands to `int()`: spaces, then "Gold", then "szt.",
      then commas deleted, in that order, and the result stripped. */
  function PriceText(s: string): string {
    Strip(Replace(Replace(Replace(Replace(s, " ", ""), "Gold", ""), "szt.", ""), ",", ""))
  }

  /** `clean_price`. */
  function CleanPrice(f: Field): (r: Option<int>)
    ensures f.NotStr? ==> r == None
  {
    match f
    case NotStr => None
    case Str(s) => ParseInt(PriceText(s))
  }

  /** The quantity is `int()` of the text with every space deleted. */
  lemma QuantityIgnoresSpaces(s: string)
    ensures CleanQuantity(Str(s)) == ParseInt(Remove(s, ' '))
  {
    ReplaceCharIsRemove(s, ' ');
  }

  /** A decimal integer with spaces anywhere in it (thousands groups, padding)
      is read as that integer. */
  lemma QuantityOfSpacedInteger(s: string, n: int)
    requires Remove(s, ' ') == IntToString(n)
    ensures CleanQuantity(Str(s)) == Some(n)
  {
    QuantityIgnoresSpaces(s);
    IntToStringParses(n);
  }

  /** An already clean integer text is read as itself. */
  lemma QuantityOfCleanText(n: int)
    ensures CleanQuantity(Str(IntToString(n))) == Some(n)
  {
    var x := IntToString(n);
    assert forall i :: 0 <= i < |x| ==> x[i] != ' ' by {
      if n < 0 {
        assert forall i :: 1 <= i < |x| ==> x[i] == NatToString(-n)[i - 1];
      }
    }
    RemoveAbsent(x, ' ');
    QuantityOfSpacedInteger(x, n);
  }

  /** Digits with interior or surrounding spaces: the value of the digits. */
  lemma QuantityOfDigitsAndSpaces(s: string, k: int)
    requires forall i :: 0 <= i < |s| ==> IsDigit(s[i]) || s[i] == ' '
    requires 0 <= k < |s| && IsDigit(s[k])
    ensures AllDigits(Remove(s, ' '))
    ensures CleanQuantity(Str(s)) == Some(DigitsValue(Remove(s, ' ')))
  {
    var d := Remove(s, ' ');
    RemoveKeeps(s, ' ', k);
    forall i | 0 <= i < |d|
      ensures IsDigit(d[i])
    {
      RemoveFrom(s, ' ', i);
    }
    QuantityIgnoresSpaces(s);
    ParseAllDigits(d);
  }

  /** A character that no integer literal contains makes the quantity `None`. */
  lemma QuantityRejects(s: string, k: int)
    requires 0 <= k < |s| && !IsIntChar(s[k])
    ensures CleanQuantity(Str(s)) == None
  {
    var d := Remove(s, ' ');
    QuantityIgnoresSpaces(s);
    RemoveKeeps(s, ' ', k);
    var j :| 0 <= j < |d| && d[j] == s[k];
    if ParseInt(d).Some? {
      ParseIntAlphabet(d, j);
    }
  }

  /** U+001C is whitespace to `str.isspace()` but not to `int()`, and the
      quantity cleaner deletes only spaces, so it makes the quantity `None`. */
  lemma QuantityRejectsSeparator()
    ensures CleanQuantity(Str("\U{1c}5")) == None
  {
    QuantityRejects("\U{1c}5", 0);
  }

  lemma DropUnitSpaces(s: string, unit: string)
    requires unit == "" || unit == "Gold" || unit == "szt."
    ensures Replace(s + unit, " ", "") == Remove(s, ' ') + unit
  {
    ReplaceCharIsRemove(s + unit, ' ');
    RemoveAppend(s, unit, ' ');
    RemoveAbsent(unit, ' ');
  }

  lemma DropGold(s1: string, unit: string)
    requires forall i :: 0 <= i < |s1| ==> s1[i] != 'G'
    requires unit == "" || unit == "Gold" || unit == "szt."
    ensures Replace(s1 + unit, "Gold", "") == s1 + (if unit == "Gold" then "" else unit)
  {
    ReplaceSkip(s1, unit, "Gold", "");
    if unit == "Gold" {
      ReplaceWhole("Gold", "");
    } else if unit == "szt." {
      assert unit[..4] != "Gold";
      assert Replace(unit[1..], "Gold", "") == unit[1..];
    }
  }

  lemma DropPieces(s1: string, u2: string)
    requires forall i :: 0 <= i < |s1| ==> s1[i] != 's'
    requires u2 == "" || u2 == "szt."
    ensures Replace(s1 + u2, "szt.", "") == s1
  {
    ReplaceSkip(s1, u2, "szt.", "");
    if u2 == "szt." {
      ReplaceWhole("szt.", "");
    }
    assert s1 + "" == s1;
  }

  /** The price text of digits grouped by spaces and commas, followed by
      nothing, "Gold" or "szt.", is the digits alone. */
  lemma PriceTextOfGroupedDigits(s: string, unit: string)
    requires forall i :: 0 <= i < |s| ==> IsDigit(s[i]) || s[i] == ' ' || s[i] == ','
    requires unit == "" || unit == "Gold" || unit == "szt."
    ensures PriceText(s + unit) == Strip(Remove(Remove(s, ' '), ','))
  {
    var s1 := Remove(s, ' ');
    forall i | 0 <= i < |s1|
      ensures s1[i] != 'G' && s1[i] != 's'
    {
      RemoveFrom(s, ' ', i);
    }
    DropUnitSpaces(s, unit);
    DropGold(s1, unit);
    DropPieces(s1, if unit == "Gold" then "" else unit);
    ReplaceCharIsRemove(s1, ',');
  }

  /** Deleting spaces and commas from a text of digits, spaces and commas
      that holds at least one digit leaves a non-empty run of digits. */
  lemma GroupedDigits(s: string, k: int)
    requires forall i :: 0 <= i < |s| ==> IsDigit(s[i]) || s[i] == ' ' || s[i] == ','
    requires 0 <= k < |s| && IsDigit(s[k])
    ensures |Remove(Remove(s, ' '), ',')| > 0 && AllDigits(Remove(Remove(s, ' '), ','))
  {
    var s1 := Remove(s, ' ');
    var d := Remove(s1, ',');
    RemoveKeeps(s, ' ', k);
    var j :| 0 <= j < |s1| && s1[j] == s[k];
    RemoveKeeps(s1, ',', j);
    forall i | 0 <= i < |d|
      ensures IsDigit(d[i])
    {
      RemoveFrom(s1, ',', i);
      var i1 :| 0 <= i1 < |s1| && s1[i1] == d[i];
      RemoveFrom(s, ' ', i1);
    }
  }

  lemma PriceTextIsDigits(s: string, unit: string, d: string)
    requires forall i :: 0 <= i < |s| ==> IsDigit(s[i]) || s[i] == ' ' || s[i] == ','
    requires unit == "" || unit == "Gold" || unit == "szt."
    requires Remove(Remove(s, ' '), ',') == d && AllDigits(d)
    ensures PriceText(s + unit) == d
  {
    PriceTextOfGroupedDigits(s, unit);
    StripDigits(d);
  }

  lemma StripDigits(d: string)
    requires AllDigits(d)
    ensures Strip(d) == d
  {
    StripPadded(StrSpaces, [], d, []);
    assert [] + d + [] == d;
  }

  /** "1 234 Gold", "1,234Gold", "50szt.": digits grouped by spaces and commas,
      with an optional "Gold" or "szt." unit, are read as the number their
      digits spell. */
  lemma PriceOfGroupedDigits(s: string, unit: string, k: int)
    requires forall i :: 0 <= i < |s| ==> IsDigit(s[i]) || s[i] == ' ' || s[i] == ','
    requires 0 <= k < |s| && IsDigit(s[k])
    requires unit == "" || unit == "Gold" || unit == "szt."
    ensures AllDigits(Remove(Remove(s, ' '), ','))
    ensures CleanPrice(Str(s + unit)) == Some(DigitsValue(Remove(Remove(s, ' '), ',')))
  {
    var d := Remove(Remove(s, ' '), ',');
    GroupedDigits(s, k);
    PriceTextIsDigits(s, unit, d);
    ParseAllDigits(d);
  }

  /** A character that is not part of an integer literal, not whitespace that
      `strip()` removes and not part of a deleted token makes the price
      `None`. */
  lemma PriceRejects(s: string, k: int)
    requires 0 <= k < |s| && !IsIntChar(s[k]) && !IsSpace(s[k])
    requires s[k] !in "Goldszt.,"
    ensures CleanPrice(Str(s)) == None
  {
    var c := s[k];
    var r1 := Replace(s, " ", "");
    ReplaceKeeps(s, " ", k);
    var i1 :| 0 <= i1 < |r1| && r1[i1] == c;
    var r2 := Replace(r1, "Gold", "");
    ReplaceKeeps(r1, "Gold", i1);
    var i2 :| 0 <= i2 < |r2| && r2[i2] == c;
    var r3 := Replace(r2, "szt.", "");
    ReplaceKeeps(r2, "szt.", i2);
    var i3 :| 0 <= i3 < |r3| && r3[i3] == c;
    var r4 := Replace(r3, ",", "");
    ReplaceKeeps(r3, ",", i3);
    var i4 :| 0 <= i4 < |r4| && r4[i4] == c;
    StripInside(StrSpaces, r4, i4);
    var t := PriceText(s);
    var j :| 0 <= j < |t| && t[j] == c;
    if ParseInt(t).Some? {
      ParseIntAlphabet(t, j);
    }
  }

  /** Two groups of digits separated, and optionally followed, by one space,
      are digits and spaces. */
  lemma SpacedGroupsChars(a: string, b: string, tail: string)
    requires AllDigits(a) && AllDigits(b)
    requires tail == "" || tail == " "
    ensures forall i :: 0 <= i < |a + " " + b + tail| ==> IsDigit((a + " " + b + tail)[i]) || (a + " " + b + tail)[i] == ' '
  {
    var s := a + " " + b + tail;
    forall i | 0 <= i < |s|
      ensures IsDigit(s[i]) || s[i] == ' '
    {
      if i < |a| {
        assert s[i] == a[i];
      } else if |a| < i < |a| + 1 + |b| {
        assert s[i] == b[i - |a| - 1];
      }
    }
  }

  /** Deleting the spaces joins the groups. */
  lemma SpacedGroupsJoin(a: string, b: string, tail: string)
    requires AllDigits(a) && AllDigits(b)
    requires tail == "" || tail == " "
    ensures Remove(a + " " + b + tail, ' ') == a + b
  {
    assert a + " " + b + tail == a + (" " + (b + tail));
    assert Remove(b + tail, ' ') == b by {
      RemoveAppend(b, tail, ' ');
      RemoveAbsent(b, ' ');
      assert Remove(tail, ' ') == [];
      assert b + [] == b;
    }
    assert Remove(" " + (b + tail), ' ') == b by {
      RemoveAppend(" ", b + tail, ' ');
      assert Remove(" ", ' ') == [];
      assert [] + b == b;
    }
    RemoveAppend(a, " " + (b + tail), ' ');
    RemoveAbsent(a, ' ');
  }

  /** "1 234": the quantity of two digit groups is the value of their digits. */
  lemma QuantityOfGroups(a: string, b: string)
    requires |a| > 0 && AllDigits(a) && AllDigits(b)
    ensures AllDigits(a + b)
    ensures CleanQuantity(Str(a + " " + b)) == Some(DigitsValue(a + b))
  {
    assert a + " " + b + "" == a + " " + b;
    SpacedGroupsChars(a, b, "");
    SpacedGroupsJoin(a, b, "");
    assert (a + " " + b)[0] == a[0];
    QuantityOfDigitsAndSpaces(a + " " + b, 0);
  }

  /** "1 234 Gold": the price of two digit groups, a space and a unit is the
      value of their digits. */
  lemma PriceOfGroups(a: string, b: string, unit: string)
    requires |a| > 0 && AllDigits(a) && AllDigits(b)
    requires unit == "" || unit == "Gold" || unit == "szt."
    ensures AllDigits(a + b)
    ensures CleanPrice(Str(a + " " + b + " " + unit)) == Some(DigitsValue(a + b))
  {
    var s := a + " " + b + " ";
    SpacedGroupsChars(a, b, " ");
    SpacedGroupsJoin(a, b, " ");
    RemoveAbsent(a + b, ',');
    assert s[0] == a[0];
    PriceOfGroupedDigits(s, unit, 0);
  }

  /** "50szt.": the price of digits and a unit is the value of the digits. */
  lemma PriceOfDigits(d: string, unit: string)
    requires |d| > 0 && AllDigits(d)
    requires unit == "" || unit == "Gold" || unit == "szt."
    ensures CleanPrice(Str(d + unit)) == Some(DigitsValue(d))
  {
    RemoveAbsent(d, ' ');
    RemoveAbsent(d, ',');
    PriceOfGroupedDigits(d, unit, 0);
  }

  /** The example texts, as the pieces the lemmas above take. */
  lemma ExampleTexts()
    ensures "1 234" == "1" + " " + "234"
    ensures "1 234 Gold" == "1" + " " + "234" + " " + "Gold"
    ensures "1" + "234" == "1234"
    ensures "50szt." == "50" + "szt."
  {
  }

  lemma ExampleDigits()
    ensures AllDigits("1") && AllDigits("234")
    ensures AllDigits("1234") && DigitsValue("1234") == 1234
    ensures AllDigits("50") && DigitsValue("50") == 50
  {
    assert "1234"[..3] == "123" && "123"[..2] == "12" && "12"[..1] == "1";
    assert "50"[..1] == "5";
  }

  lemma PriceExampleGold()
    ensures CleanPrice(Str("1 234 Gold")) == Some(1234)
  {
    ExampleTexts();
    ExampleDigits();
    PriceOfGroups("1", "234", "Gold");
  }

  lemma PriceExamplePieces()
    ensures CleanPrice(Str("50szt.")) == Some(50)
  {
    ExampleTexts();
    ExampleDigits();
    PriceOfDigits("50", "szt.");
  }

  lemma PriceExampleWord()
    ensures CleanPrice(Str("abc")) == None
  {
    PriceRejects("abc", 0);
  }

  lemma QuantityExample()
    ensures CleanQuantity(Str("1 234")) == Some(1234)
  {
    ExampleTexts();
    ExampleDigits();
    QuantityOfGroups("1", "234");
  }
}
