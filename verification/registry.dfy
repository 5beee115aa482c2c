/**
  The registry line filter of fetch_country_ipv4. The regional registry
  publishes one allocation record per line, fields separated by '|'
  (registry|cc|type|start|value|date|status...). The scanner keeps the IPv4
  records of the selected country and turns each into the descriptor
  "<start>/<value>" that the expander reads.
 */
module Registry {
  import opened Optional
  import opened Text
  import opened Decimal
  import Expander

  /** A line the filter passes over: blank once stripped, or a comment. */
  predicate Ignorable(raw: string)
  {
    Strip(raw) == [] || Strip(raw)[0] == '#'
  }

  /** The '|'-separated fields of a stripped line. */
  function Fields(raw: string): (parts: seq<string>)
    ensures |parts| >= 1
  {
    Split(Strip(raw), {'|'})
  }

  /**
    An IPv4 record of the selected country: not ignorable, at least seven
    fields, the country field equal to the code and the type field equal to
    "ipv4", both compared without regard to case.
   */
  predicate Selected(cc: string, raw: string)
  {
    && !Ignorable(raw)
    && |Fields(raw)| >= 7
    && Upper(Fields(raw)[1]) == Upper(cc)
    && Lower(Fields(raw)[2]) == "ipv4"
  }

  /** What one line does to the fetch: nothing, one descriptor, or a ValueError from int(). */
  datatype LineOutcome = Skip | Emit(descriptor: string) | Fail

  /**
    The per-line body of the fetch loop. A line contributes a descriptor
    exactly when it is a selected record whose value field int() accepts; the
    descriptor is its start field, a '/', and the decimal text of that integer.
   */
  function ClassifyLine(cc: string, raw: string): (r: LineOutcome)
    ensures Ignorable(raw) ==> r == Skip
    ensures r != Skip <==> Selected(cc, raw)
    ensures r.Fail? <==> Selected(cc, raw) && ParseInt(Fields(raw)[4]).None?
    ensures r.Emit? ==>
              && ParseInt(Fields(raw)[4]).Some?
              && r.descriptor == Fields(raw)[3] + "/" + IntToString(ParseInt(Fields(raw)[4]).value)
  {
    if Ignorable(raw) then Skip
    else
      var parts := Fields(raw);
      if |parts| >= 7 && Upper(parts[1]) == Upper(cc) && Lower(parts[2]) == "ipv4" then
        match ParseInt(parts[4])
        case None => Fail
        case Some(count) => Emit(Expander.Descriptor(parts[3], count))
      else Skip
  }

  /** A selected record whose value field starts with one of the separators U+1C to U+1F fails. */
  lemma SeparatorValueFails(cc: string, raw: string)
    requires Selected(cc, raw)
    requires |Fields(raw)[4]| > 0 && '\U{1C}' <= Fields(raw)[4][0] <= '\U{1F}'
    ensures ClassifyLine(cc, raw).Fail?
  {
    SeparatorControlRejected(Fields(raw)[4]);
  }

  /**
    The outcomes of a download's lines gathered in order: the emitted
    descriptors, or None once any line fails (the ValueError escapes the loop).
   */
  function Collect(outcomes: seq<LineOutcome>): (r: Option<seq<string>>)
    ensures r.Some? ==> |r.value| <= |outcomes|
    decreases |outcomes|
  {
    if outcomes == [] then Some([])
    else
      match outcomes[0]
      case Fail => None
      case Skip => Collect(outcomes[1..])
      case Emit(d) =>
        match Collect(outcomes[1..])
        case None => None
        case Some(rest) => Some([d] + rest)
  }

  /** Both halves of a download gathered, put together. */
  function Concat(x: Option<seq<string>>, y: Option<seq<string>>): Option<seq<string>>
  {
    if x.Some? && y.Some? then Some(x.value + y.value) else None
  }

  /** Gathering keeps input order: outcomes split anywhere gather to the two halves' results in order. */
  lemma {:induction false} CollectAppend(a: seq<LineOutcome>, b: seq<LineOutcome>)
    ensures Collect(a + b) == Concat(Collect(a), Collect(b))
    decreases |a|
  {
    if a == [] {
      assert a + b == b;
      if Collect(b).Some? {
        assert [] + Collect(b).value == Collect(b).value;
      }
    } else {
      assert (a + b)[0] == a[0];
      assert (a + b)[1..] == a[1..] + b;
      CollectAppend(a[1..], b);
      match a[0]
      case Fail =>
      case Skip =>
      case Emit(d) =>
        if Collect(a[1..]).Some? && Collect(b).Some? {
          assert [d] + (Collect(a[1..]).value + Collect(b).value)
              == ([d] + Collect(a[1..]).value) + Collect(b).value;
        }
    }
  }

  /** Gathering fails exactly when one of the outcomes is a failure. */
  lemma {:induction false} CollectFails(outcomes: seq<LineOutcome>)
    ensures Collect(outcomes).None? <==> exists i :: 0 <= i < |outcomes| && outcomes[i].Fail?
    decreases |outcomes|
  {
    if outcomes != [] {
      CollectFails(outcomes[1..]);
      if !outcomes[0].Fail? && exists i :: 0 <= i < |outcomes| && outcomes[i].Fail? {
        var i :| 0 <= i < |outcomes| && outcomes[i].Fail?;
        assert outcomes[1..][i - 1] == outcomes[i];
      }
    }
  }

  /**
    When gathering succeeds, a descriptor is in its result exactly when some
    outcome emits it: nothing is invented and nothing emitted is dropped.
   */
  lemma {:induction false} CollectMembers(outcomes: seq<LineOutcome>, d: string)
    requires Collect(outcomes).Some?
    ensures d in Collect(outcomes).value <==> Emit(d) in outcomes
    decreases |outcomes|
  {
    if outcomes != [] {
      CollectMembers(outcomes[1..], d);
      assert outcomes == [outcomes[0]] + outcomes[1..];
    }
  }

  /** The outcome of every line, in order. */
  function Outcomes(cc: string, lines: seq<string>): (r: seq<LineOutcome>)
    ensures |r| == |lines|
    ensures forall i :: 0 <= i < |lines| ==> r[i] == ClassifyLine(cc, lines[i])
  {
    seq(|lines|, i requires 0 <= i < |lines| => ClassifyLine(cc, lines[i]))
  }

  lemma OutcomesAppend(cc: string, a: seq<string>, b: seq<string>)
    ensures Outcomes(cc, a + b) == Outcomes(cc, a) + Outcomes(cc, b)
  {
  }

  /** The lines of a download filtered in order, or None when some selected line's value field is not an integer. */
  function FilterLines(cc: string, lines: seq<string>): (r: Option<seq<string>>)
    ensures r.Some? ==> |r.value| <= |lines|
  {
    Collect(Outcomes(cc, lines))
  }

  /** Filtering keeps input order: a download split anywhere filters to the two halves' results in order. */
  lemma FilterAppend(cc: string, a: seq<string>, b: seq<string>)
    ensures FilterLines(cc, a + b) == Concat(FilterLines(cc, a), FilterLines(cc, b))
  {
    OutcomesAppend(cc, a, b);
    CollectAppend(Outcomes(cc, a), Outcomes(cc, b));
  }

  /** The filter fails exactly when some line is a selected record whose value field is not an integer. */
  lemma FilterFails(cc: string, lines: seq<string>)
    ensures FilterLines(cc, lines).None? <==>
              exists i :: 0 <= i < |lines| && Selected(cc, lines[i]) && ParseInt(Fields(lines[i])[4]).None?
  {
    CollectFails(Outcomes(cc, lines));
  }

  /**
    When the filter succeeds, a descriptor is in its output exactly when some
    line emits it.
   */
  lemma FilterMembers(cc: string, lines: seq<string>, d: string)
    requires FilterLines(cc, lines).Some?
    ensures d in FilterLines(cc, lines).value <==>
              exists i :: 0 <= i < |lines| && ClassifyLine(cc, lines[i]) == Emit(d)
  {
    var os := Outcomes(cc, lines);
    CollectMembers(os, d);
    if Emit(d) in os {
      var i :| 0 <= i < |os| && os[i] == Emit(d);
      assert ClassifyLine(cc, lines[i]) == Emit(d);
    }
    if exists i :: 0 <= i < |lines| && ClassifyLine(cc, lines[i]) == Emit(d) {
      var i :| 0 <= i < |lines| && ClassifyLine(cc, lines[i]) == Emit(d);
      assert os[i] == Emit(d);
    }
  }

  /** Blank and comment lines contribute nothing, wherever they stand. */
  lemma IgnorableContributesNothing(cc: string, a: seq<string>, raw: string, b: seq<string>)
    requires Ignorable(raw)
    ensures FilterLines(cc, a + [raw] + b) == FilterLines(cc, a + b)
  {
    var fa, fb := FilterLines(cc, a), FilterLines(cc, b);
    FilterAppend(cc, a + [raw], b);
    FilterAppend(cc, a, [raw]);
    FilterAppend(cc, a, b);
    var os := Outcomes(cc, [raw]);
    assert os == [Skip];
    assert Collect(os[1..]) == Some([]);
    assert FilterLines(cc, [raw]) == Some([]);
    if fa.Some? {
      assert fa.value + [] == fa.value;
    }
  }

  /**
    fetch_country_ipv4 over a download: no country code, a failed download
    (a status other than 200, a timeout, a client error) or a value field that
    is not an integer each give the empty list; otherwise the filtered lines.
   */
  function FetchCountryIpv4(cc: string, download: Option<seq<string>>): (r: seq<string>)
    ensures cc == [] || download.None? ==> r == []
    ensures cc != [] && download.Some? && FilterLines(cc, download.value).Some? ==>
              r == FilterLines(cc, download.value).value
  {
    if cc == [] then []
    else
      match download
      case None => []
      case Some(lines) =>
        match FilterLines(cc, lines)
        case None => []
        case Some(descriptors) => descriptors
  }

  /**
    One record with a malformed value field loses the whole download, even the
    descriptors collected before it.
   */
  lemma OneBadValueLosesAll(cc: string, lines: seq<string>, i: nat)
    requires i < |lines| && Selected(cc, lines[i]) && ParseInt(Fields(lines[i])[4]).None?
    ensures FetchCountryIpv4(cc, Some(lines)) == []
  {
    FilterFails(cc, lines);
  }

  /** Every descriptor fetched comes from an IPv4 record of the selected country, in the emitted form. */
  lemma FetchedFromSelected(cc: string, lines: seq<string>, d: string)
    requires d in FetchCountryIpv4(cc, Some(lines))
    ensures exists i :: && 0 <= i < |lines| && Selected(cc, lines[i])
                        && ParseInt(Fields(lines[i])[4]).Some?
                        && d == Expander.Descriptor(Fields(lines[i])[3], ParseInt(Fields(lines[i])[4]).value)
  {
    FilterMembers(cc, lines, d);
    var i :| 0 <= i < |lines| && ClassifyLine(cc, lines[i]) == Emit(d);
  }

  /**
    The descriptor of a record whose start field holds no '/' splits back into
    that start field and the record's count, so the expander sees exactly the
    block the registry allocated.
   */
  lemma EmittedDescriptorSplits(cc: string, raw: string)
    requires ClassifyLine(cc, raw).Emit? && NoneOf(Fields(raw)[3], {'/'})
    ensures var d := ClassifyLine(cc, raw).descriptor;
            && Expander.SplitsInTwo(d)
            && Expander.AddressText(d) == Fields(raw)[3]
            && ParseInt(Expander.CountText(d)) == ParseInt(Fields(raw)[4])
  {
    Expander.DescriptorSplits(Fields(raw)[3], ParseInt(Fields(raw)[4]).value);
  }
}
