/** Reading the query parameters of a Connect request. */
module OptionParser {
  import opened Basics
  import opened Decimal

  const DEFAULT_LIMIT: uint64 := 256
  const DEFAULT_OFFSET: uint64 := 0

  type Values = map<string, seq<string>>

  /** url.Values.Get: the first value, or the empty string. */
  function Get(values: Values, key: string): string {
    if key in values && |values[key]| > 0 then values[key][0] else ""
  }

  const TRUE_WORDS: set<string> := {"1", "t", "T", "TRUE", "true", "True"}
  const FALSE_WORDS: set<string> := {"0", "f", "F", "FALSE", "false", "False"}

  function ParseBool(s: string): Option<bool> {
    if s in TRUE_WORDS then Some(true) else if s in FALSE_WORDS then Some(false) else None
  }

  /** A number parameter with its fallback for malformed or oversized text. */
  ghost function NumberOr(text: string, fallback: uint64): uint64 {
    match Parsed(text) case Some(n) => n case None => fallback
  }

  datatype Settings = Settings(fetchCBD: bool, limit: uint64, offset: uint64)

  /** What the option fields' documentation asks for: every nonempty parameter sets its own field. */
  ghost function Documented(s: Settings, values: Values): Settings {
    var fetch, limit, offset := Get(values, "fetchcbd"), Get(values, "limit"), Get(values, "offset");
    Settings(
      if fetch == "" then s.fetchCBD else fetch in TRUE_WORDS,
      if limit == "" then s.limit else NumberOr(limit, DEFAULT_LIMIT),
      if offset == "" then s.offset else NumberOr(offset, DEFAULT_OFFSET))
  }

  /** What the code does: the documented result, except that the offset parameter lands in limit. */
  ghost function Converted(s: Settings, values: Values): Settings {
    var d := Documented(s, values);
    if Get(values, "offset") == "" then d else d.(limit := d.offset, offset := s.offset)
  }

  class VolumeSnapshotDeltaOption {
    var fetchCBD: bool
    var limit: uint64
    var offset: uint64

    function Current(): Settings
      reads this
    {
      Settings(fetchCBD, limit, offset)
    }

    constructor ()
      ensures Current() == Settings(false, 0, 0)
    {
      fetchCBD, limit, offset := false, 0, 0;
    }

    method ConvertFromUrlValues(values: Values)
      modifies this
      ensures Current() == Converted(old(Current()), values)
    {
      var value := Get(values, "fetchcbd");
      if value != "" {
        var parsed := ParseBool(value);
        fetchCBD := if parsed.Some? then parsed.value else false;
      }
      value := Get(values, "limit");
      if value != "" {
        var parsed := ParseUint(value);
        limit := if parsed.Some? then parsed.value else DEFAULT_LIMIT;
      }
      value := Get(values, "offset");
      if value != "" {
        var parsed := ParseUint(value);
        limit := if parsed.Some? then parsed.value else DEFAULT_OFFSET;
      }
    }
  }

  /** The code meets the documentation exactly when no offset is given, or the number
      it stands for happens to be both the limit asked for and the offset already there. */
  lemma MeetsDocumentation(s: Settings, values: Values)
    ensures Converted(s, values) == Documented(s, values) <==>
              Get(values, "offset") == ""
              || (&& NumberOr(Get(values, "offset"), 0) == s.offset
                  && (if Get(values, "limit") == "" then s.limit else NumberOr(Get(values, "limit"), 256)) == s.offset)
  {
  }

  /** The first value given for a key, which may be missing or empty. */
  predicate First(values: Values, key: string, text: string) {
    if key in values && |values[key]| > 0 then text == values[key][0] else text == ""
  }

  /** The limit or offset that a text stands for: its number if it fits 64 bits. */
  ghost predicate StandsFor(text: string, fallback: nat, n: nat) {
    if exists m: nat :: m < 0x1_0000_0000_0000_0000 && Denotes(text, m) then Denotes(text, n) else n == fallback
  }

  /** Which texts set which fields, to what, and what a missing or empty one leaves. */
  lemma ConvertedExactly(s: Settings, values: Values, fetch: string, limit: string, offset: string)
    requires First(values, "fetchcbd", fetch) && First(values, "limit", limit) && First(values, "offset", offset)
    ensures var r := Converted(s, values);
            && (fetch == "" ==> r.fetchCBD == s.fetchCBD)
            && (fetch != "" ==>
                  (r.fetchCBD <==> fetch == "1" || fetch == "t" || fetch == "T"
                                   || fetch == "TRUE" || fetch == "true" || fetch == "True"))
            && (offset != "" ==> StandsFor(offset, 0, r.limit))
            && (offset == "" && limit != "" ==> StandsFor(limit, 256, r.limit))
            && (offset == "" && limit == "" ==> r.limit == s.limit)
            && r.offset == s.offset
  {
    ParsedExactly(offset);
    ParsedExactly(limit);
  }

  lemma ParsedExactly(text: string)
    ensures Parsed(text).Some? <==> exists m: nat :: m < 0x1_0000_0000_0000_0000 && Denotes(text, m)
    ensures Parsed(text).Some? ==> Denotes(text, Parsed(text).value)
  {
    if Parsed(text).Some? { assert Denotes(text, Parsed(text).value); }
  }

  /** A boolean written into a request sets the fetch field to it, and that field only. */
  lemma FetchRoundTrip(s: Settings, fetch: bool)
    ensures Converted(s, map["fetchcbd" := [if fetch then "true" else "false"]]) == s.(fetchCBD := fetch)
  {
    assert "true" != "false";
  }

  /** Printing any limit and offset into a request: the offset replaces the limit and
      the offset field keeps its value, whatever the two numbers are. */
  lemma OffsetReplacesLimit(s: Settings, limit: uint64, offset: uint64)
    ensures var values := map["limit" := [Print(limit)], "offset" := [Print(offset)]];
            Converted(s, values) == s.(limit := offset)
  {
    PrintParses(limit);
    PrintParses(offset);
  }

  /** Without an offset, any limit written into a request arrives unchanged. */
  lemma LimitRoundTrip(s: Settings, limit: uint64)
    ensures Converted(s, map["limit" := [Print(limit)]]) == s.(limit := limit)
  {
    PrintParses(limit);
  }
}
