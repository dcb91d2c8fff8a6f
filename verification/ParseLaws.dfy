/** Laws of parsing that do not go through the way fields are placed: where each field of a text ends up, which texts
    mean the same, and what the optional parts stand for. */
module ParseLaws {
  import opened Options
  import opened ParseCaches
  import opened SpecTexts

  // ----- texts -----

  /** The fields of two texts with a space between them are those of the first and then those of the second. */
  lemma {:induction false} JoinedFieldsFrom(a: string, b: string, i: nat)
    requires i <= |a|
    ensures FieldsFrom(a + " " + b, i) == FieldsFrom(a, i) + Fields(b)
    decreases |a| - i
  {
    hide IsSpace;
    var t := a + " " + b;
    BlankIsSpace();
    if i == |a| {
      assert t[i] == ' ';
      ShiftedFields(a + " ", b, 0);
    } else {
      assert t[i] == a[i];
      if IsSpace(a[i]) {
        JoinedFieldsFrom(a, b, i + 1);
      } else {
        var j := WordEnd(a, i);
        SameWord(a, t, i);
        assert t[i..j] == a[i..j];
        JoinedFieldsFrom(a, b, j);
      }
    }
  }

  lemma SameWord(a: string, t: string, i: nat)
    requires i <= |a| && a <= t && |a| < |t| && IsSpace(t[|a|])
    ensures WordEnd(t, i) == WordEnd(a, i)
  {
    hide IsSpace;
    var j := WordEnd(a, i);
    var k := WordEnd(t, i);
    assert forall n :: 0 <= n < |a| ==> t[n] == a[n];
  }

  lemma {:induction false} ShiftedFields(a: string, b: string, i: nat)
    requires i <= |b|
    ensures FieldsFrom(a + b, |a| + i) == FieldsFrom(b, i)
    decreases |b| - i
  {
    hide IsSpace;
    var t := a + b;
    if i == |b| {
    } else if IsSpace(b[i]) {
      ShiftedFields(a, b, i + 1);
    } else {
      ShiftedWord(a, b, i);
      var j := WordEnd(b, i);
      SameStretch(a, b, i, j);
      ShiftedFields(a, b, j);
    }
  }

  lemma SameStretch(a: string, b: string, i: nat, j: nat)
    requires i <= j <= |b|
    ensures (a + b)[|a| + i..|a| + j] == b[i..j]
    ensures i < |b| ==> (a + b)[|a| + i] == b[i]
  {
  }

  lemma ShiftedWord(a: string, b: string, i: nat)
    requires i <= |b|
    ensures WordEnd(a + b, |a| + i) == |a| + WordEnd(b, i)
  {
    hide IsSpace;
    var t, j := a + b, WordEnd(b, i);
    assert forall n :: 0 <= n < |b| ==> t[|a| + n] == b[n];
  }

  lemma JoinedFields(a: string, b: string)
    ensures Fields(a + " " + b) == Fields(a) + Fields(b)
  {
    JoinedFieldsFrom(a, b, 0);
  }

  /** A word is its own only field, and a text of spaces has none. */
  lemma {:induction false} OneField(s: string)
    ensures s != "" && (forall k :: 0 <= k < |s| ==> !IsSpace(s[k])) ==> Fields(s) == [s]
    ensures (forall k :: 0 <= k < |s| ==> IsSpace(s[k])) ==> Fields(s) == []
  {
    hide IsSpace;
    if s != "" && forall k :: 0 <= k < |s| ==> !IsSpace(s[k]) {
      assert WordEnd(s, 0) == |s| && s[0..|s|] == s;
      assert FieldsFrom(s, |s|) == [];
    } else if forall k :: 0 <= k < |s| ==> IsSpace(s[k]) {
      OnlySpaces(s, 0);
    }
  }

  lemma {:induction false} OnlySpaces(s: string, i: nat)
    requires i <= |s| && forall k :: 0 <= k < |s| ==> IsSpace(s[k])
    ensures FieldsFrom(s, i) == []
    decreases |s| - i
  {
    hide IsSpace;
    if i == |s| {
    } else {
      OnlySpaces(s, i + 1);
    }
  }

  /** The items of a list are its nonempty parts, in order. */
  lemma {:induction false} JoinedItemsFrom(a: string, b: string, i: nat)
    requires i <= |a|
    ensures ItemsFrom(a + "," + b, i) == ItemsFrom(a, i) + ItemsFrom(b, 0)
    decreases |a| - i
  {
    var t := a + "," + b;
    if i == |a| {
      assert t[i] == ',';
      ShiftedItems(a + ",", b, 0);
    } else {
      assert t[i] == a[i];
      if a[i] == ',' {
        JoinedItemsFrom(a, b, i + 1);
      } else {
        var j := CommaFrom(a, i);
        assert forall n :: 0 <= n < |a| ==> t[n] == a[n];
        assert t[|a|] == ',';
        assert CommaFrom(t, i) == j;
        assert t[i..j] == a[i..j];
        JoinedItemsFrom(a, b, j);
      }
    }
  }

  lemma {:induction false} ShiftedItems(a: string, b: string, i: nat)
    requires i <= |b|
    ensures ItemsFrom(a + b, |a| + i) == ItemsFrom(b, i)
    decreases |b| - i
  {
    var t := a + b;
    if i == |b| {
    } else if b[i] == ',' {
      ShiftedItems(a, b, i + 1);
    } else {
      var j := CommaFrom(b, i);
      ShiftedComma(a, b, i);
      SameStretch(a, b, i, j);
      ShiftedItems(a, b, j);
    }
  }

  lemma ShiftedComma(a: string, b: string, i: nat)
    requires i <= |b|
    ensures CommaFrom(a + b, |a| + i) == |a| + CommaFrom(b, i)
  {
    var t := a + b;
    assert forall n :: 0 <= n < |b| ==> t[|a| + n] == b[n];
  }

  lemma OneItem(s: string)
    requires s != "" && forall k :: 0 <= k < |s| ==> s[k] != ','
    ensures ItemsFrom(s, 0) == [s]
  {
    assert CommaFrom(s, 0) == |s| && s[0..|s|] == s;
    assert ItemsFrom(s, |s|) == [];
  }

  /** A field has a hash item exactly when one of its items starts with H. */
  lemma {:induction false} HashItemFrom(f: string, i: nat)
    requires i <= |f| && (i == 0 || f[i - 1] == ',' || i == |f| || f[i] == ',')
    ensures (exists k :: i <= k < |f| && f[k] == 'H' && (k == 0 || f[k - 1] == ','))
            <==> exists item :: item in ItemsFrom(f, i) && item != "" && item[0] == 'H'
    decreases |f| - i
  {
    if i == |f| {
    } else if f[i] == ',' {
      HashItemFrom(f, i + 1);
    } else {
      var j := CommaFrom(f, i);
      HashItemFrom(f, j);
      var first := f[i..j];
      assert ItemsFrom(f, i) == [first] + ItemsFrom(f, j);
      assert first[0] == f[i];
      forall k | i < k < j && f[k] == 'H'
        ensures f[k - 1] != ','
      {
      }
    }
  }

  // ----- places -----

  /** Whether the field of place k is given in the text, optional fields included. */
  predicate Given(o: Flags, k: nat) {
    if k == 0 then o.second || o.secondOptional
    else if k == 1 then o.minute
    else if k == 2 then o.hour
    else if k == 3 then o.dom
    else if k == 4 then o.month
    else k == 5 && (o.dow || o.dowOptional)
  }

  /** How many of the places before k are given. */
  function GivenBefore(o: Flags, k: nat): (n: nat)
    ensures n <= k
  {
    if k == 0 then 0 else GivenBefore(o, k - 1) + if Given(o, k - 1) then 1 else 0
  }

  /** The fields as they are put into the six places. */
  predicate InPlaces(o: Flags, fields: seq<string>, r: seq<string>) {
    && |r| == 6 && |fields| == GivenBefore(o, 6)
    && (forall k :: 0 <= k < 6 && Given(o, k) ==> GivenBefore(o, k) < |fields| && r[k] == fields[GivenBefore(o, k)])
    && (forall k :: 0 <= k < 3 && !Given(o, k) ==> r[k] == "0")
    && (forall k :: 3 <= k < 6 && !Given(o, k) ==> r[k] == "*")
  }

  /** q has the places that are given by o. */
  predicate Means(q: Flags, o: Flags) {
    && (q.second <==> Given(o, 0)) && (q.minute <==> Given(o, 1)) && (q.hour <==> Given(o, 2))
    && (q.dom <==> Given(o, 3)) && (q.month <==> Given(o, 4)) && (q.dow <==> Given(o, 5))
  }

  lemma ProcessedMeans(o: Flags)
    ensures ProcessOptional(o).None? <==> o.secondOptional && o.dowOptional
    ensures ProcessOptional(o).Some? ==> Means(ProcessOptional(o).value.0, o)
    ensures ProcessOptional(o).Some?
            ==> ProcessOptional(o).value.1 == if o.secondOptional || o.dowOptional then 1 else 0
  {
  }

  lemma Six<T>(a: T, b: T, c: T, d: T, e: T, f: T)
    ensures var r := [a, b, c, d, e, f]; r[0] == a && r[1] == b && r[2] == c && r[3] == d && r[4] == e && r[5] == f
  {
  }

  lemma PlacesAre(q: Flags, o: Flags, k: nat)
    requires k < 6 && Means(q, o)
    ensures Places(q)[k] <==> Given(o, k)
  {
    hide Given;
    Six(q.second, q.minute, q.hour, q.dom, q.month, q.dow);
  }

  lemma {:induction false} CountsAre(q: Flags, o: Flags, k: nat)
    requires k <= 6 && Means(q, o)
    ensures CountFrom(q, k) == GivenBefore(o, 6) - GivenBefore(o, k)
    decreases 6 - k
  {
    hide Places, Given, Means;
    if k == 6 {
    } else {
      CountsAre(q, o, k + 1);
      PlacesAre(q, o, k);
    }
  }

  lemma {:induction false} ExpandedAt(q: Flags, o: Flags, fields: seq<string>, k: nat, m: nat)
    requires k <= m < 6 && Means(q, o) && |fields| == CountFrom(q, k)
    ensures var r, i := Expand(q, fields, k), GivenBefore(o, m) - GivenBefore(o, k);
            && |r| == 6 - k
            && (if Given(o, m) then 0 <= i < |fields| && r[m - k] == fields[i]
                else r[m - k] == if m < 3 then "0" else "*")
    decreases 6 - k
  {
    hide Places, Given, Means, Expand, CountFrom;
    ExpandedHead(q, o, fields, k);
    var rest := if Given(o, k) then fields[1..] else fields;
    if k == m {
      ExpandedLength(q, fields, k);
    } else {
      ExpandedAt(q, o, rest, k + 1, m);
      var r := Expand(q, rest, k + 1);
      assert Expand(q, fields, k)[m - k] == r[m - k - 1];
    }
  }

  /** The first place that is filled, and the rest. */
  lemma ExpandedHead(q: Flags, o: Flags, fields: seq<string>, k: nat)
    requires k < 6 && Means(q, o) && |fields| == CountFrom(q, k)
    ensures Given(o, k) ==> |fields| > 0
    ensures var rest := if Given(o, k) then fields[1..] else fields;
            && |rest| == CountFrom(q, k + 1)
            && Expand(q, fields, k)
               == [if Given(o, k) then fields[0] else if k < 3 then "0" else "*"] + Expand(q, rest, k + 1)
    ensures GivenBefore(o, k + 1) == GivenBefore(o, k) + if Given(o, k) then 1 else 0
  {
    hide Places, Given, Means;
    PlacesAre(q, o, k);
  }

  lemma {:induction false} ExpandedLength(q: Flags, fields: seq<string>, k: nat)
    requires k <= 6 && |fields| == CountFrom(q, k)
    ensures |Expand(q, fields, k)| == 6 - k
    decreases 6 - k
  {
    hide Places;
    if k == 6 {
    } else {
      ExpandedLength(q, if Places(q)[k] then fields[1..] else fields, k + 1);
    }
  }

  lemma ExpandedInPlaces(q: Flags, o: Flags, fields: seq<string>)
    requires Means(q, o) && |fields| == CountFrom(q, 0)
    ensures InPlaces(o, fields, Expand(q, fields, 0))
  {
    hide Expand, CountFrom, Given, Means;
    CountsAre(q, o, 0);
    ExpandedLength(q, fields, 0);
    assert GivenBefore(o, 0) == 0;
    forall k | 0 <= k < 6
      ensures Given(o, k) ==> GivenBefore(o, k) < |fields| && Expand(q, fields, 0)[k] == fields[GivenBefore(o, k)]
      ensures !Given(o, k) ==> Expand(q, fields, 0)[k] == if k < 3 then "0" else "*"
    {
      ExpandedAt(q, o, fields, 0, k);
    }
  }

  /** How a text's fields are completed: nothing is missing, or the one optional field is. */
  function Completed(o: Flags, fields: seq<string>): Option<seq<string>> {
    if o.secondOptional && o.dowOptional then None
    else if |fields| == GivenBefore(o, 6) then Some(fields)
    else if o.secondOptional && |fields| + 1 == GivenBefore(o, 6) then Some(["0"] + fields)
    else if o.dowOptional && |fields| + 1 == GivenBefore(o, 6) then Some(fields + ["*"])
    else None
  }

  /** The normalized fields are the completed ones, each in its place, with the defaults in the places that are not
      given; there are none exactly when the number of fields does not fit. */
  lemma NormalizedInPlaces(fields: seq<string>, o: Flags)
    ensures NormalizeFields(fields, o).None? <==> Completed(o, fields).None?
    ensures NormalizeFields(fields, o).Some?
            ==> InPlaces(o, Completed(o, fields).value, NormalizeFields(fields, o).value)
  {
    hide Expand, CountFrom, Given, InPlaces, Means, ProcessOptional;
    ProcessedMeans(o);
    if ProcessOptional(o).Some? {
      var q := ProcessOptional(o).value.0;
      CountsAre(q, o, 0);
      assert GivenBefore(o, 0) == 0;
      if Completed(o, fields).Some? {
        ExpandedInPlaces(q, o, Completed(o, fields).value);
      }
    }
  }

  /** Fields in places are determined. */
  lemma PlacesDetermine(o: Flags, q: Flags, fields: seq<string>, r: seq<string>, t: seq<string>)
    requires InPlaces(o, fields, r) && InPlaces(q, fields, t)
    requires forall k :: 0 <= k < 6 ==> (Given(o, k) <==> Given(q, k))
    ensures r == t
  {
    hide Given;
    forall k | 0 <= k < 6
      ensures r[k] == t[k]
    {
      SameGivenBefore(o, q, k);
    }
  }

  lemma {:induction false} SameGivenBefore(o: Flags, q: Flags, k: nat)
    requires k <= 6 && forall m :: 0 <= m < 6 ==> (Given(o, m) <==> Given(q, m))
    ensures GivenBefore(o, k) == GivenBefore(q, k)
    decreases k
  {
    hide Given;
    if k == 0 {
    } else {
      SameGivenBefore(o, q, k - 1);
    }
  }

  // ----- texts that mean the same -----

  /** A parser without a second field reads fields as one with it reads them with "0" in front. */
  lemma WithoutSecond(fields: seq<string>, o: Flags)
    requires !o.second && !o.secondOptional
    ensures NormalizeFields(fields, o) == NormalizeFields(["0"] + fields, o.(second := true))
  {
    hide NormalizeFields, InPlaces;
    var q, more := o.(second := true), ["0"] + fields;
    NormalizedInPlaces(fields, o);
    NormalizedInPlaces(more, q);
    SecondIsOneMore(o, 6);
    if NormalizeFields(fields, o).Some? {
      assert ["0"] + fields + ["*"] == ["0"] + (fields + ["*"]);
      SamePlaces(Completed(o, fields).value, o, NormalizeFields(fields, o).value, NormalizeFields(more, q).value);
    }
  }

  lemma SamePlaces(fields: seq<string>, o: Flags, r: seq<string>, t: seq<string>)
    requires !o.second && !o.secondOptional
    requires InPlaces(o, fields, r) && InPlaces(o.(second := true), ["0"] + fields, t)
    ensures r == t
  {
    hide GivenBefore;
    forall k | 0 <= k < 6
      ensures r[k] == t[k]
    {
      if k > 0 {
        SecondIsOneMore(o, k);
      } else {
        NoneBefore(o.(second := true));
      }
    }
  }

  lemma NoneBefore(o: Flags)
    ensures GivenBefore(o, 0) == 0
  {
  }

  lemma {:induction false} SecondIsOneMore(o: Flags, k: nat)
    requires !o.second && !o.secondOptional && 1 <= k <= 6
    ensures GivenBefore(o.(second := true), k) == GivenBefore(o, k) + 1
    decreases k
  {
    if k == 1 {
      assert GivenBefore(o, 0) == 0;
    } else {
      SecondIsOneMore(o, k - 1);
    }
  }

  /** With an optional second, one field too few is read with "0" in front. */
  lemma OptionalSecond(fields: seq<string>, o: Flags)
    requires o.secondOptional && |fields| + 1 == GivenBefore(o, 6)
    ensures !o.dowOptional ==>
              NormalizeFields(fields, o) == NormalizeFields(["0"] + fields, o.(second := true, secondOptional := false))
  {
    hide NormalizeFields;
    var q := o.(second := true, secondOptional := false);
    NormalizedInPlaces(fields, o);
    NormalizedInPlaces(["0"] + fields, q);
    SameGivenBefore(o, q, 6);
    if !o.dowOptional {
      PlacesDetermine(o, q, ["0"] + fields, NormalizeFields(fields, o).value, NormalizeFields(["0"] + fields, q).value);
    }
  }

  /** With an optional day-of-week, one field too few is read with "*" behind. */
  lemma OptionalDow(fields: seq<string>, o: Flags)
    requires o.dowOptional && |fields| + 1 == GivenBefore(o, 6)
    ensures !o.secondOptional ==>
              NormalizeFields(fields, o) == NormalizeFields(fields + ["*"], o.(dow := true, dowOptional := false))
  {
    hide NormalizeFields;
    var q := o.(dow := true, dowOptional := false);
    NormalizedInPlaces(fields, o);
    NormalizedInPlaces(fields + ["*"], q);
    SameGivenBefore(o, q, 6);
    if !o.secondOptional {
      PlacesDetermine(o, q, fields + ["*"], NormalizeFields(fields, o).value, NormalizeFields(fields + ["*"], q).value);
    }
  }

  // ----- the year -----

  /** The numbers of fields that fit, year aside. */
  predicate Fits(o: Flags, n: nat) {
    !(o.secondOptional && o.dowOptional)
    && (n == GivenBefore(o, 6) || ((o.secondOptional || o.dowOptional) && n + 1 == GivenBefore(o, 6)))
  }

  lemma FitsIs(o: Flags, n: nat)
    ensures ProcessOptional(o).Some? ==>
              var (flags, optionals) := ProcessOptional(o).value;
              Fits(o, n) <==> CountFrom(flags, 0) - optionals <= n <= CountFrom(flags, 0)
    ensures ProcessOptional(o).None? ==> !Fits(o, n)
  {
    hide CountFrom, Given, Means, ProcessOptional;
    ProcessedMeans(o);
    if ProcessOptional(o).Some? {
      CountsAre(ProcessOptional(o).value.0, o, 0);
      assert GivenBefore(o, 0) == 0;
    }
  }

  /** Without a year option no field is a year. */
  lemma NoYear(fields: seq<string>, o: Flags, looksLikeYear: string -> bool)
    requires !o.year && !o.yearOptional
    ensures ExtractYear(fields, o, looksLikeYear) == Some((fields, ""))
  {
  }

  /** A year behind fields that fit is taken off, when it looks like one or is required and cannot be another field. */
  lemma YearIsTaken(fields: seq<string>, year: string, o: Flags, looksLikeYear: string -> bool)
    requires Fits(o, |fields|) && (o.year || o.yearOptional)
    requires looksLikeYear(year) || (o.year && !(o.secondOptional && |fields| + 1 == GivenBefore(o, 6)))
    ensures ExtractYear(fields + [year], o, looksLikeYear) == Some((fields, year))
  {
    hide CountFrom, GivenBefore, ProcessOptional;
    ProcessedMeans(o);
    FitsIs(o, |fields|);
    CountIs(o);
    assert (fields + [year])[..|fields|] == fields;
  }

  /** Without one, fields that fit are kept and every year matches: when the year is optional, and when it is required
      but the last field may be the day-of-week after an optional second. */
  lemma YearIsOpen(fields: seq<string>, o: Flags, looksLikeYear: string -> bool)
    requires Fits(o, |fields|) && fields != [] && !looksLikeYear(fields[|fields| - 1])
    requires if o.year then o.secondOptional && |fields| == GivenBefore(o, 6) else o.yearOptional
    ensures ExtractYear(fields, o, looksLikeYear) == Some((fields, "*"))
  {
    hide CountFrom, GivenBefore, ProcessOptional;
    ProcessedMeans(o);
    FitsIs(o, |fields|);
    CountIs(o);
  }

  /** Otherwise the number of fields is wrong. */
  lemma YearIsMissing(fields: seq<string>, o: Flags, looksLikeYear: string -> bool)
    requires o.year || o.yearOptional
    ensures ExtractYear(fields, o, looksLikeYear).Some? <==>
              || (fields != [] && Fits(o, |fields| - 1) && (o.year || looksLikeYear(fields[|fields| - 1])))
              || (!o.year && Fits(o, |fields|))
  {
    hide CountFrom, GivenBefore, ProcessOptional;
    ProcessedMeans(o);
    FitsIs(o, |fields|);
    if fields != [] {
      FitsIs(o, |fields| - 1);
    }
    CountIs(o);
    OptionalIsGiven(o);
  }

  lemma OptionalIsGiven(o: Flags)
    ensures o.secondOptional || o.dowOptional ==> GivenBefore(o, 6) >= 1
  {
    GivenGrows(o, 1);
    assert GivenBefore(o, 1) == GivenBefore(o, 0) + if Given(o, 0) then 1 else 0;
    assert GivenBefore(o, 6) == GivenBefore(o, 5) + if Given(o, 5) then 1 else 0;
  }

  lemma {:induction false} GivenGrows(o: Flags, k: nat)
    requires k <= 6
    ensures GivenBefore(o, k) <= GivenBefore(o, 6)
    decreases 6 - k
  {
    hide Given;
    if k == 6 {
    } else {
      GivenGrows(o, k + 1);
    }
  }

  lemma CountIs(o: Flags)
    ensures ProcessOptional(o).Some? ==> CountFrom(ProcessOptional(o).value.0, 0) == GivenBefore(o, 6)
  {
    hide CountFrom, Given, Means, ProcessOptional;
    ProcessedMeans(o);
    if ProcessOptional(o).Some? {
      CountsAre(ProcessOptional(o).value.0, o, 0);
      assert GivenBefore(o, 0) == 0;
    }
  }

  // ----- whole specs -----

  /** A text without a timezone or a descriptor, of a length that is read. */
  predicate PlainText(spec: string) {
    && 0 < |spec| <= 1024
    && spec[..1] != "@"
    && !("TZ=" <= spec) && !("CRON_TZ=" <= spec)
  }

  lemma ParsePlain(g: Grammar, p: Settings, spec: string)
    requires PlainText(spec)
    ensures ParseAfresh(g, p, spec) == ParseFields(g, p, Fields(spec), "Local")
  {
    hide ParseFields, Fields;
  }

  lemma NotRead(g: Grammar, p: Settings, spec: string)
    ensures |spec| == 0 || |spec| > 1024 ==> ParseAfresh(g, p, spec).Failed?
  {
  }

  /** What is left of two texts' settings and fields once the places are filled decides what they mean. */
  lemma SamePartsSameParse(g: Grammar, p: Settings, q: Settings, all: seq<string>, more: seq<string>, zone: string)
    requires p.hashKey == q.hashKey && p.plain.flags.hash == q.plain.flags.hash
    requires p.plain.ItemSettings() == q.plain.ItemSettings()
    requires var a := ExtractYear(all, p.plain.flags, g.looksLikeYear);
             var b := ExtractYear(more, q.plain.flags, g.looksLikeYear);
             && (a.None? <==> b.None?)
             && (a.Some? ==>
                   && a.value.1 == b.value.1
                   && NormalizeFields(a.value.0, p.plain.flags) == NormalizeFields(b.value.0, q.plain.flags))
    ensures ParseFields(g, p, all, zone) == ParseFields(g, q, more, zone)
  {
    hide ExtractYear, NormalizeFields, ContainsHash;
    var a := ExtractYear(all, p.plain.flags, g.looksLikeYear);
    if a.Some? && NormalizeFields(a.value.0, p.plain.flags).Some? {
      SameReading(g, p, q, NormalizeFields(a.value.0, p.plain.flags).value, 0);
    }
  }

  lemma {:induction false} SameReading(g: Grammar, p: Settings, q: Settings, fields: seq<string>, place: int)
    requires p.hashKey == q.hashKey && p.plain.ItemSettings() == q.plain.ItemSettings()
    ensures ReadFields(g, p, fields, place) == ReadFields(g, q, fields, place)
    decreases |fields|
  {
    if fields == [] {
    } else {
      SameItems(g, p, q, ItemsFrom(fields[0], 0), place);
      SameReading(g, p, q, fields[1..], place + 1);
    }
  }

  lemma {:induction false} SameItems(g: Grammar, p: Settings, q: Settings, items: seq<string>, place: int)
    requires p.hashKey == q.hashKey && p.plain.ItemSettings() == q.plain.ItemSettings()
    ensures ReadItems(g, p, items, place) == ReadItems(g, q, items, place)
    decreases |items|
  {
    if items == [] {
    } else {
      SameItems(g, p, q, items[1..], place);
    }
  }

  /** p with other flags. */
  function With(p: Settings, o: Flags): Settings { p.(plain := p.plain.(flags := o)) }

  /** A second in front does not change what the year is: for parsers without seconds, and for texts that leave out an
      optional one. */
  lemma YearBehindSecond(fields: seq<string>, o: Flags, looksLikeYear: string -> bool)
    requires !(o.secondOptional && o.dowOptional)
    requires o.second || o.secondOptional ==>
               && o.secondOptional && ExtractYear(fields, o, looksLikeYear).Some?
               && |ExtractYear(fields, o, looksLikeYear).value.0| + 1 == GivenBefore(o, 6)
    ensures var q := o.(second := true, secondOptional := false);
            var a, b := ExtractYear(fields, o, looksLikeYear), ExtractYear(["0"] + fields, q, looksLikeYear);
            && (a.None? <==> b.None?)
            && (a.Some? ==> b.value == (["0"] + a.value.0, a.value.1))
  {
    hide CountFrom, GivenBefore, ProcessOptional;
    var q := o.(second := true, secondOptional := false);
    ProcessedMeans(o);
    ProcessedMeans(q);
    CountIs(o);
    CountIs(q);
    SecondCounts(o);
    OptionalIsGiven(o);
    var n, more := |fields|, ["0"] + fields;
    if n > 0 {
      assert more[n] == fields[n - 1] && more[..n] == ["0"] + fields[..n - 1];
    }
    var a, b := ExtractYear(fields, o, looksLikeYear), ExtractYear(more, q, looksLikeYear);
    if a.Some? && n > 0 {
      assert a.value == (fields, a.value.1) || a.value == (fields[..n - 1], fields[n - 1]);
      assert b.value == (more, b.value.1) || b.value == (more[..n], more[n]);
    }
  }

  lemma SecondCounts(o: Flags)
    ensures GivenBefore(o.(second := true, secondOptional := false), 6)
            == GivenBefore(o, 6) + if o.second || o.secondOptional then 0 else 1
  {
    var q := o.(second := true, secondOptional := false);
    if o.second || o.secondOptional {
      SameGivenBefore(o, q, 6);
    } else {
      SecondIsOneMore(o, 6);
    }
  }

  /** A parser without seconds reads a text as one with seconds reads it with "0" in front; so does a parser with
      optional seconds when one field is missing, year aside. */
  lemma SecondZero(g: Grammar, p: Settings, spec: string)
    requires PlainText(spec) && PlainText("0 " + spec)
    requires var o := p.plain.flags; var parts := ExtractYear(Fields(spec), o, g.looksLikeYear);
             && !(o.secondOptional && o.dowOptional)
             && (o.second || o.secondOptional ==>
                   o.secondOptional && parts.Some? && |parts.value.0| + 1 == GivenBefore(o, 6))
    ensures ParseAfresh(g, p, spec)
            == ParseAfresh(g, With(p, p.plain.flags.(second := true, secondOptional := false)), "0 " + spec)
  {
    hide ParseFields, Fields, NormalizeFields, ParseAfresh, ExtractYear, GivenBefore;
    ZeroInFront(spec);
    ParsePlain(g, p, spec);
    var o := p.plain.flags;
    var q := With(p, o.(second := true, secondOptional := false));
    ParsePlain(g, q, "0 " + spec);
    YearBehindSecond(Fields(spec), o, g.looksLikeYear);
    var parts := ExtractYear(Fields(spec), o, g.looksLikeYear);
    if parts.Some? {
      if o.secondOptional {
        OptionalSecond(parts.value.0, o);
      } else {
        assert o.(second := true) == q.plain.flags;
        WithoutSecond(parts.value.0, o);
      }
    }
    SamePartsSameParse(g, p, q, Fields(spec), ["0"] + Fields(spec), "Local");
  }

  lemma ZeroInFront(spec: string)
    ensures Fields("0 " + spec) == ["0"] + Fields(spec)
  {
    hide Fields;
    assert "0" + " " + spec == "0 " + spec;
    JoinedFields("0", spec);
    OneField("0");
    ZeroIsNoSpace();
  }

  lemma StarBehind(spec: string)
    ensures Fields(spec + " *") == Fields(spec) + ["*"]
  {
    hide Fields;
    assert spec + " " + "*" == spec + " *";
    JoinedFields(spec, "*");
    OneField("*");
    ZeroIsNoSpace();
  }

  lemma ZeroIsNoSpace()
    ensures !IsSpace('0') && !IsSpace('*')
  {
  }

  /** With an optional day-of-week, a missing one is read as "*". */
  lemma OptionalDowStar(g: Grammar, p: Settings, spec: string)
    requires var o := p.plain.flags; o.dowOptional && !o.secondOptional && !o.year && !o.yearOptional
    requires PlainText(spec) && PlainText(spec + " *") && |Fields(spec)| + 1 == GivenBefore(p.plain.flags, 6)
    ensures ParseAfresh(g, p, spec)
            == ParseAfresh(g, With(p, p.plain.flags.(dow := true, dowOptional := false)), spec + " *")
  {
    hide ParseFields, Fields, NormalizeFields, ParseAfresh, GivenBefore;
    StarBehind(spec);
    ParsePlain(g, p, spec);
    var o := p.plain.flags;
    var q := With(p, o.(dow := true, dowOptional := false));
    ParsePlain(g, q, spec + " *");
    NoYear(Fields(spec), o, g.looksLikeYear);
    NoYear(Fields(spec) + ["*"], q.plain.flags, g.looksLikeYear);
    OptionalDow(Fields(spec), o);
    SamePartsSameParse(g, p, q, Fields(spec), Fields(spec) + ["*"], "Local");
  }

  /** A text that names its timezone means what the rest of it means there, descriptors included. */
  lemma ZonedText(g: Grammar, p: Settings, prefix: string, name: string, rest: string)
    requires prefix == "TZ=" || prefix == "CRON_TZ="
    requires forall k :: 0 <= k < |name| ==> !IsSpace(name[k]) && name[k] != '"' && name[k] != '\''
    requires rest != "" && !IsSpace(rest[0]) && !IsSpace(rest[|rest| - 1]) && |prefix + name + " " + rest| <= 1024
    ensures ParseAfresh(g, p, prefix + name + " " + rest)
            == if !g.zoneIsValid(name) then Failed("bad timezone")
               else if rest[0] == '@' then
                 if p.plain.flags.descriptor then g.descriptor(rest, name, p.plain.ItemSettings())
                 else Failed("no descriptors")
               else ParseFields(g, p, Fields(rest), name)
  {
    hide ParseFields, Fields, IsSpace, SplitZone;
    var spec := prefix + name + " " + rest;
    ZoneIsSplit(g, prefix, name, rest);
    assert HasPrefix(rest, "@") <==> rest[0] == '@';
  }

  lemma ZoneIsSplit(g: Grammar, prefix: string, name: string, rest: string)
    requires prefix == "TZ=" || prefix == "CRON_TZ="
    requires forall k :: 0 <= k < |name| ==> !IsSpace(name[k]) && name[k] != '"' && name[k] != '\''
    requires rest != "" && !IsSpace(rest[0]) && !IsSpace(rest[|rest| - 1])
    ensures SplitZone(g, prefix + name + " " + rest) == if g.zoneIsValid(name) then Some((name, rest)) else None
  {
    hide IsSpace, TrimSpace, IndexOf;
    var spec, n := prefix + name + " " + rest, |prefix + name|;
    ZoneIndexes(prefix, name, rest);
    assert spec[|prefix|..n] == name;
    assert spec[n..] == " " + rest;
    Trimmed(rest);
    assert prefix <= spec;
    assert HasPrefix(spec, prefix);
  }

  lemma ZoneIndexes(prefix: string, name: string, rest: string)
    requires prefix == "TZ=" || prefix == "CRON_TZ="
    requires forall k :: 0 <= k < |name| ==> !IsSpace(name[k])
    ensures IndexOf(prefix + name + " " + rest, ' ') == |prefix + name|
    ensures IndexOf(prefix + name + " " + rest, '=') == |prefix| - 1
  {
    hide IsSpace, IndexOf;
    var spec, n := prefix + name + " " + rest, |prefix + name|;
    BlankIsSpace();
    assert forall k :: 0 <= k < |prefix| ==> spec[k] == prefix[k];
    assert forall k :: |prefix| <= k < n ==> spec[k] == name[k - |prefix|];
    assert spec[n] == ' ' && spec[|prefix| - 1] == '=';
    FirstIndex(spec, ' ', n);
    FirstIndex(spec, '=', |prefix| - 1);
  }

  /** A zone name loses one pair of quotes of a kind around it, and nothing else. */
  lemma Quotes(name: string, quote: char)
    ensures quote == '"' || quote == '\'' ==> Unquoted([quote] + name + [quote]) == name
    ensures quote != '"' && quote != '\'' ==> Unquoted([quote] + name) == [quote] + name
    ensures name != "" && name[|name| - 1] != quote ==> Unquoted([quote] + name) == [quote] + name
    ensures |name| <= 1 ==> Unquoted(name) == name
  {
  }

  lemma {:induction false} FirstIndex(s: string, c: char, i: nat)
    requires i < |s| && s[i] == c && forall k :: 0 <= k < i ==> s[k] != c
    ensures IndexOf(s, c) == i
    decreases i
  {
    if i == 0 {
    } else {
      FirstIndex(s[1..], c, i - 1);
    }
  }

  lemma Trimmed(rest: string)
    requires rest != "" && !IsSpace(rest[0]) && !IsSpace(rest[|rest| - 1])
    ensures TrimSpace(" " + rest) == rest
  {
    hide IsSpace;
    BlankIsSpace();
    assert (" " + rest)[1..] == rest;
    assert TrimLeft(rest) == rest;
  }

  /** Each field of a text without year and optional parts is read item by item, for its own place. */
  lemma {:induction false} ReadInPlaces(g: Grammar, p: Settings, fields: seq<string>, place: int, i: nat)
    requires i < |fields|
    ensures |ReadFields(g, p, fields, place)| == |fields|
    ensures ReadFields(g, p, fields, place)[i] == ReadItems(g, p, ItemsFrom(fields[i], 0), place + i)
    decreases i
  {
    if i == 0 {
      ReadLength(g, p, fields, place);
    } else {
      ReadInPlaces(g, p, fields[1..], place + 1, i - 1);
    }
  }

  lemma {:induction false} ReadLength(g: Grammar, p: Settings, fields: seq<string>, place: int)
    ensures |ReadFields(g, p, fields, place)| == |fields|
    decreases |fields|
  {
    if fields == [] {
    } else {
      ReadLength(g, p, fields[1..], place + 1);
    }
  }

  lemma {:induction false} EachItemRead(g: Grammar, p: Settings, items: seq<string>, place: int, i: nat)
    requires i < |items|
    ensures |ReadItems(g, p, items, place)| == |items|
    ensures ReadItems(g, p, items, place)[i]
            == if items[i] != "" && items[i][0] == 'H' then
                 g.hashedItem(items[i], place, p.plain.ItemSettings(), p.hashKey)
               else g.plainItem(items[i], place, p.plain.ItemSettings())
    decreases i
  {
    if i == 0 {
      ItemsLength(g, p, items, place);
    } else {
      EachItemRead(g, p, items[1..], place, i - 1);
    }
  }

  lemma {:induction false} ItemsLength(g: Grammar, p: Settings, items: seq<string>, place: int)
    ensures |ReadItems(g, p, items, place)| == |items|
    decreases |items|
  {
    if items == [] {
    } else {
      ItemsLength(g, p, items[1..], place);
    }
  }

  /** A text whose fields fit their places: its items are read, or its hash items lack the option or the key. */
  lemma FieldsRead(g: Grammar, p: Settings, fields: seq<string>, r: seq<string>, zone: string)
    requires var o := p.plain.flags; !o.year && !o.yearOptional && |fields| == GivenBefore(o, 6)
    requires !(p.plain.flags.secondOptional && p.plain.flags.dowOptional) && InPlaces(p.plain.flags, fields, r)
    ensures ParseFields(g, p, fields, zone)
            == if (exists k :: 0 <= k < 6 && HasHashItem(r[k])) && !p.plain.flags.hash then
                 Failed("hash option required")
               else if (exists k :: 0 <= k < 6 && HasHashItem(r[k])) && p.hashKey == "" then Failed("hash key required")
               else g.finish(ReadFields(g, p, r, 0), r, "", zone, p.plain.ItemSettings())
  {
    hide NormalizeFields, ExtractYear, HasHashItem, ReadFields, Given, GivenBefore;
    var o := p.plain.flags;
    NoYear(fields, o, g.looksLikeYear);
    NormalizedInPlaces(fields, o);
    PlacesDetermine(o, o, fields, r, NormalizeFields(fields, o).value);
  }

  // ----- the cache -----

  /** A text without a hash item has one cache entry for all hash keys; every other setting tells entries apart, and
      with a hash item so does the key. */
  lemma KeysTellApart(p: Settings, q: Settings, spec: string, other: string)
    ensures KeyOf(p, spec) == KeyOf(q, other)
            <==> spec == other && p.plain == q.plain
                 && (p.hashKey == q.hashKey
                     || forall f :: f in Fields(spec) ==> forall item :: item in ItemsFrom(f, 0)
                                                                         ==> !(item != "" && item[0] == 'H'))
  {
    hide Fields, ItemsFrom, HasHashItem;
    forall f
      ensures HasHashItem(f) <==> exists item :: item in ItemsFrom(f, 0) && item != "" && item[0] == 'H'
    {
      HashItemIs(f);
    }
    if ContainsHash(Fields(spec)) {
      var i :| 0 <= i < |Fields(spec)| && HasHashItem(Fields(spec)[i]);
      assert Fields(spec)[i] in Fields(spec);
    }
  }

  lemma HashItemIs(f: string)
    ensures HasHashItem(f) <==> exists item :: item in ItemsFrom(f, 0) && item != "" && item[0] == 'H'
  {
    HashItemFrom(f, 0);
  }
}
