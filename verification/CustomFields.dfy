/** Resolving an issue's `custom_fields` entries, and overlaying recovered values on a rejected write.

    `norm` is the field-name normaliser, an arbitrary function on strings. */
module CustomFields {
  import opened Prelude

  datatype Value = Single(value: Option<string>) | Multiple(values: seq<string>)

  datatype Entry = Entry(id: Option<nat>, name: Option<string>, value: Value)

  datatype Definition = Definition(id: nat, name: string)

  datatype Write = Write(id: nat, value: Value)

  datatype ResolveError =
    | BothIdAndName
    | NeitherIdNorName
    | DefinitionsNotFetched
    | UnknownName(name: string)
    | AmbiguousName(name: string)
    | DuplicateField(id: nat)

  type Norm = string -> string

  /* ---------- What the entries mean ---------- */

  predicate WellShaped(e: Entry) { e.id.Some? <==> e.name.None? }

  function Matches(norm: Norm, defs: seq<Definition>, name: string): (ms: seq<Definition>)
    ensures |ms| <= |defs|
  {
    if defs == [] then []
    else (if norm(defs[0].name) == norm(name) then [defs[0]] else []) + Matches(norm, defs[1..], name)
  }

  // Exactly one definition answers to the name, and it has this id.
  ghost predicate Names(norm: Norm, defs: seq<Definition>, name: string, id: nat) {
    exists i :: 0 <= i < |defs| && norm(defs[i].name) == norm(name) && defs[i].id == id
                && forall j :: 0 <= j < |defs| && norm(defs[j].name) == norm(name) ==> j == i
  }

  // The positions of the definitions that answer to a name.
  ghost function Answering(norm: Norm, defs: seq<Definition>, name: string): set<nat> {
    set i: nat | i < |defs| && norm(defs[i].name) == norm(name)
  }

  ghost predicate Addresses(norm: Norm, defs: Option<seq<Definition>>, e: Entry, id: nat) {
    && WellShaped(e)
    && (e.id.Some? ==> id == e.id.value)
    && (e.name.Some? ==> defs.Some? && Names(norm, defs.value, e.name.value, id))
  }

  ghost predicate Distinct(ids: seq<nat>) {
    forall i, j :: 0 <= i < j < |ids| ==> ids[i] != ids[j]
  }

  // `ids` says, entry by entry, which field is meant, and no field is meant twice.
  ghost predicate Resolves(norm: Norm, defs: Option<seq<Definition>>, entries: seq<Entry>, ids: seq<nat>) {
    && |ids| == |entries|
    && (forall i :: 0 <= i < |ids| ==> Addresses(norm, defs, entries[i], ids[i]))
    && Distinct(ids)
  }

  /* ---------- The code ---------- */

  // Entry `i` is the first with both an id and a name, or neither, and the error says which.
  ghost predicate FirstIllShaped(entries: seq<Entry>, i: int, error: ResolveError) {
    && 0 <= i < |entries| && (forall j :: 0 <= j < i ==> WellShaped(entries[j]))
    && (if entries[i].id.Some? then entries[i].name.Some? && error == BothIdAndName
        else entries[i].name.None? && error == NeitherIdNorName)
  }

  method ValidateEntryShapes(entries: seq<Entry>) returns (error: Option<ResolveError>)
    ensures error.None? <==> forall e :: e in entries ==> WellShaped(e)
    ensures error.Some? ==> exists i :: FirstIllShaped(entries, i, error.value)
  {
    for i := 0 to |entries|
      invariant forall j :: 0 <= j < i ==> WellShaped(entries[j])
    {
      if entries[i].id.Some? && entries[i].name.Some? {
        assert entries[i] in entries && FirstIllShaped(entries, i, BothIdAndName);
        return Some(BothIdAndName);
      }
      if entries[i].id.None? && entries[i].name.None? {
        assert entries[i] in entries && FirstIllShaped(entries, i, NeitherIdNorName);
        return Some(NeitherIdNorName);
      }
    }
    error := None;
  }

  function ResolveName(norm: Norm, defs: seq<Definition>, name: string): Result<nat, ResolveError> {
    var matches := Matches(norm, defs, name);
    if matches == [] then Err(UnknownName(name))
    else if |matches| == 1 then Ok(matches[0].id)
    else Err(AmbiguousName(name))
  }

  method ResolveEntries(norm: Norm, defs: Option<seq<Definition>>, entries: seq<Entry>)
    returns (result: Result<seq<Write>, ResolveError>)
    ensures result.Ok? ==> |result.value| == |entries|
                           && (forall i :: 0 <= i < |entries| ==> result.value[i].value == entries[i].value)
                           && Resolves(norm, defs, entries, Ids(result.value))
    ensures result.Err? ==> !exists ids :: Resolves(norm, defs, entries, ids)
    ensures result.Err? && (result.error.BothIdAndName? || result.error.NeitherIdNorName?) ==>
              exists i :: FirstIllShaped(entries, i, result.error)
    ensures !(forall e :: e in entries ==> WellShaped(e)) ==>
              result.Err? && (result.error.BothIdAndName? || result.error.NeitherIdNorName?)
    ensures result == Err(DefinitionsNotFetched) ==> defs.None? && exists e :: e in entries && e.name.Some?
    ensures result.Err? && result.error.DuplicateField? ==>
              exists i, j :: 0 <= i < j < |entries| && Addresses(norm, defs, entries[i], result.error.id)
                             && Addresses(norm, defs, entries[j], result.error.id)
    ensures result.Err? && result.error.UnknownName? ==>
              && (exists e :: e in entries && e.name == Some(result.error.name))
              && defs.Some? && Answering(norm, defs.value, result.error.name) == {}
    ensures result.Err? && result.error.AmbiguousName? ==>
              && (exists e :: e in entries && e.name == Some(result.error.name))
              && defs.Some? && |Answering(norm, defs.value, result.error.name)| >= 2
  {
    var invalid := ValidateEntryShapes(entries);
    if invalid.Some? { return Err(invalid.value); }
    var out: seq<Write> := [];
    var seenIds: seq<nat> := [];
    for i := 0 to |entries|
      invariant |out| == |seenIds| == i && seenIds == Ids(out)
      invariant forall k :: 0 <= k < i ==> out[k].value == entries[k].value
      invariant Resolves(norm, defs, entries[..i], seenIds)
    {
      var entry := entries[i];
      assert entry in entries;
      var id: nat;
      if entry.id.Some? {
        id := entry.id.value;
      } else {
        if defs.None? { return Err(DefinitionsNotFetched); }
        NameIsUnique(norm, defs.value, entry.name.value);
        MatchesAnswering(norm, defs.value, entry.name.value);
        var resolved := ResolveName(norm, defs.value, entry.name.value);
        if resolved.Err? { return Err(resolved.error); }
        id := resolved.value;
      }
      assert Addresses(norm, defs, entries[i], id);
      if id in seenIds {
        var k :| 0 <= k < i && seenIds[k] == id;
        Collision(norm, defs, entries, k, i, id);
        return Err(DuplicateField(id));
      }
      seenIds := seenIds + [id];
      out := out + [Write(id, entry.value)];
    }
    assert entries[..|entries|] == entries;
    result := Ok(out);
  }

  function Ids(writes: seq<Write>): (ids: seq<nat>)
    ensures |ids| == |writes| && forall i :: 0 <= i < |ids| ==> ids[i] == writes[i].id
  {
    seq(|writes|, i requires 0 <= i < |writes| => writes[i].id)
  }

  lemma {:induction false} MatchesCount(norm: Norm, defs: seq<Definition>, name: string)
    ensures forall id: nat :: Names(norm, defs, name, id) <==>
                           |Matches(norm, defs, name)| == 1 && Matches(norm, defs, name)[0].id == id
  {
    if defs != [] {
      MatchesCount(norm, defs[1..], name);
      NamesTail(norm, defs, name);
    }
  }

  lemma NamesTail(norm: Norm, defs: seq<Definition>, name: string)
    requires defs != []
    ensures norm(defs[0].name) != norm(name) ==>
              forall id: nat :: Names(norm, defs, name, id) <==> Names(norm, defs[1..], name, id)
    ensures norm(defs[0].name) == norm(name) ==>
              forall id: nat ::
                Names(norm, defs, name, id) <==> id == defs[0].id && Matches(norm, defs[1..], name) == []
  {
    var rest := defs[1..];
    assert forall i :: 1 <= i < |defs| ==> defs[i] == rest[i - 1];
    NoMatches(norm, rest, name);
    forall id: nat | norm(defs[0].name) != norm(name)
      ensures Names(norm, defs, name, id) <==> Names(norm, rest, name, id)
    {
      if Names(norm, defs, name, id) {
        var i :| 0 <= i < |defs| && norm(defs[i].name) == norm(name) && defs[i].id == id
                && forall j :: 0 <= j < |defs| && norm(defs[j].name) == norm(name) ==> j == i;
        assert rest[i - 1] == defs[i];
      }
      if Names(norm, rest, name, id) {
        var i :| 0 <= i < |rest| && norm(rest[i].name) == norm(name) && rest[i].id == id
                && forall j :: 0 <= j < |rest| && norm(rest[j].name) == norm(name) ==> j == i;
        assert defs[i + 1] == rest[i];
      }
    }
    forall id: nat | norm(defs[0].name) == norm(name)
      ensures Names(norm, defs, name, id) <==> id == defs[0].id && Matches(norm, rest, name) == []
    {
      if Names(norm, defs, name, id) {
        assert forall j :: 0 <= j < |rest| ==> rest[j] == defs[j + 1];
      }
    }
  }

  lemma {:induction false} NoMatches(norm: Norm, defs: seq<Definition>, name: string)
    ensures Matches(norm, defs, name) == [] <==> forall i :: 0 <= i < |defs| ==> norm(defs[i].name) != norm(name)
  {
    if defs != [] {
      NoMatches(norm, defs[1..], name);
      assert forall i :: 1 <= i < |defs| ==> defs[i] == defs[1..][i - 1];
    }
  }

  lemma {:induction false} MatchesAnswering(norm: Norm, defs: seq<Definition>, name: string)
    ensures |Matches(norm, defs, name)| == |Answering(norm, defs, name)|
  {
    if defs != [] {
      var front, last := defs[..|defs| - 1], |defs| - 1;
      MatchesAnswering(norm, front, name);
      MatchesLast(norm, front, defs[last], name);
      assert defs == front + [defs[last]];
      AnsweringLast(norm, defs, name);
    }
  }

  lemma AnsweringLast(norm: Norm, defs: seq<Definition>, name: string)
    requires defs != []
    ensures var last := |defs| - 1;
            |Answering(norm, defs, name)|
            == |Answering(norm, defs[..last], name)| + if norm(defs[last].name) == norm(name) then 1 else 0
  {
    var last := |defs| - 1;
    var here: set<nat> := if norm(defs[last].name) == norm(name) then {last} else {};
    assert Answering(norm, defs, name) == Answering(norm, defs[..last], name) + here;
  }

  lemma {:induction false} MatchesLast(norm: Norm, front: seq<Definition>, last: Definition, name: string)
    ensures Matches(norm, front + [last], name)
            == Matches(norm, front, name) + if norm(last.name) == norm(name) then [last] else []
  {
    if front != [] {
      assert (front + [last])[1..] == front[1..] + [last];
      MatchesLast(norm, front[1..], last, name);
    }
  }

  // Resolution by name succeeds exactly when one definition answers to it.
  lemma NameIsUnique(norm: Norm, defs: seq<Definition>, name: string)
    ensures forall id: nat :: ResolveName(norm, defs, name) == Ok(id) <==> Names(norm, defs, name, id)
  {
    MatchesCount(norm, defs, name);
  }

  lemma Collision(norm: Norm, defs: Option<seq<Definition>>, entries: seq<Entry>, i: nat, j: nat, id: nat)
    requires i < j < |entries|
    requires Addresses(norm, defs, entries[i], id) && Addresses(norm, defs, entries[j], id)
    ensures !exists ids :: Resolves(norm, defs, entries, ids)
  {}

  /* ---------- Recovering from a rejected required field ---------- */

  datatype Fill = Fill(id: nat, name: string, value: Value)

  datatype AutofillDef = AutofillDef(id: nat, name: string, defaultValue: Option<string>,
                                     possibleValues: Option<seq<string>>, multiple: Option<bool>)

  // The configured defaults in key order: each a single string or an array.
  type Defaults = seq<(string, Value)>

  function FindDef(norm: Norm, defs: seq<AutofillDef>, field: string): Option<AutofillDef> {
    if defs == [] then None
    else if norm(defs[0].name) == norm(field) then Some(defs[0])
    else FindDef(norm, defs[1..], field)
  }

  function FindDefault(norm: Norm, defaults: Defaults, name: string): Option<Value> {
    if defaults == [] then None
    else if norm(defaults[0].0) == norm(name) then Some(defaults[0].1)
    else FindDefault(norm, defaults[1..], name)
  }

  // The candidate as a list, and whether it was configured as an array.
  function PickCandidate(norm: Norm, def: AutofillDef, defaults: Defaults): Option<(seq<string>, bool)> {
    if def.defaultValue.Some? && def.defaultValue.value != "" then Some(([def.defaultValue.value], false))
    else
      match FindDefault(norm, defaults, def.name)
      case Some(Single(Some(s))) => if s != "" then Some(([s], false)) else None
      case Some(Multiple(items)) => if items != [] then Some((items, true)) else None
      case _ => None
  }

  function FillFor(norm: Norm, defs: seq<AutofillDef>, field: string, defaults: Defaults): Option<Fill> {
    match FindDef(norm, defs, field)
    case None => None
    case Some(def) =>
      match PickCandidate(norm, def, defaults)
      case None => None
      case Some((candidate, fromArray)) =>
        if def.possibleValues.Some? && def.possibleValues.value != []
           && !(forall v :: v in candidate ==> v in def.possibleValues.value)
        then None
        else
          var value := if def.multiple.GetOr(fromArray) then Multiple(candidate)
                       else Single(if candidate != [] then Some(candidate[0]) else None);
          Some(Fill(def.id, def.name, value))
  }

  function ComputeAutofill(norm: Norm, defs: seq<AutofillDef>, missing: seq<string>, defaults: Defaults): seq<Fill> {
    if missing == [] then []
    else
      var rest := ComputeAutofill(norm, defs, missing[1..], defaults);
      match FillFor(norm, defs, missing[0], defaults)
      case None => rest
      case Some(fill) => [fill] + rest
  }

  function Values(v: Value): seq<string> {
    match v
    case Single(Some(s)) => [s]
    case Single(None) => []
    case Multiple(items) => items
  }

  // A fill sets a field that was reported missing to at least one value, all of them permitted.
  ghost predicate Usable(norm: Norm, defs: seq<AutofillDef>, missing: seq<string>, fill: Fill) {
    exists def, field ::
      && def in defs && field in missing
      && norm(def.name) == norm(field)
      && fill.id == def.id && fill.name == def.name
      && Values(fill.value) != []
      && (def.possibleValues.Some? && def.possibleValues.value != [] ==>
            forall v :: v in Values(fill.value) ==> v in def.possibleValues.value)
      && (def.multiple.Some? ==> (fill.value.Multiple? <==> def.multiple.value))
  }

  lemma {:induction false} FindDefFinds(norm: Norm, defs: seq<AutofillDef>, field: string)
    ensures var found := FindDef(norm, defs, field);
            found.Some? ==> found.value in defs && norm(found.value.name) == norm(field)
  {
    if defs != [] { FindDefFinds(norm, defs[1..], field); }
  }

  lemma {:induction false} FillsAreUsable(norm: Norm, defs: seq<AutofillDef>, missing: seq<string>, defaults: Defaults)
    ensures forall fill :: fill in ComputeAutofill(norm, defs, missing, defaults) ==> Usable(norm, defs, missing, fill)
  {
    if missing != [] {
      FillsAreUsable(norm, defs, missing[1..], defaults);
      FindDefFinds(norm, defs, missing[0]);
      forall fill | fill in ComputeAutofill(norm, defs, missing, defaults) ensures Usable(norm, defs, missing, fill) {
        if fill in ComputeAutofill(norm, defs, missing[1..], defaults) {
          assert Usable(norm, defs, missing[1..], fill);
          assert forall field :: field in missing[1..] ==> field in missing;
        } else {
          var def := FindDef(norm, defs, missing[0]).value;
          assert FillFor(norm, defs, missing[0], defaults) == Some(fill);
          assert def in defs && missing[0] in missing;
        }
      }
    }
  }

  // The definition that answers to a field, and the configured default that answers to a name: the first that match.
  ghost predicate FirstDef(norm: Norm, defs: seq<AutofillDef>, field: string, i: int) {
    && 0 <= i < |defs| && norm(defs[i].name) == norm(field)
    && forall j :: 0 <= j < i ==> norm(defs[j].name) != norm(field)
  }

  ghost predicate FirstDefault(norm: Norm, defaults: Defaults, name: string, i: int) {
    && 0 <= i < |defaults| && norm(defaults[i].0) == norm(name)
    && forall j :: 0 <= j < i ==> norm(defaults[j].0) != norm(name)
  }

  predicate Nonempty(v: Value) { Values(v) != [] && v != Single(Some("")) }

  // What a definition has to offer: its own default, or failing that the configured one, if that is not empty.
  ghost predicate Offers(norm: Norm, def: AutofillDef, defaults: Defaults, offer: Value) {
    if def.defaultValue.GetOr("") != "" then offer == Single(def.defaultValue)
    else Nonempty(offer) && exists i :: FirstDefault(norm, defaults, def.name, i) && defaults[i].1 == offer
  }

  ghost predicate Permits(def: AutofillDef, vs: seq<string>) {
    def.possibleValues.GetOr([]) != [] ==> forall v :: v in vs ==> v in def.possibleValues.value
  }

  // The fill for a field: what its definition offers, all of it permitted, in the definition's arity.
  ghost predicate Fills(norm: Norm, defs: seq<AutofillDef>, field: string, defaults: Defaults, fill: Fill) {
    exists i, offer :: FirstDef(norm, defs, field, i) && FillsFrom(norm, defs[i], defaults, offer, fill)
  }

  ghost predicate FillsFrom(norm: Norm, def: AutofillDef, defaults: Defaults, offer: Value, fill: Fill) {
    && Offers(norm, def, defaults, offer) && Permits(def, Values(offer))
    && fill.id == def.id && fill.name == def.name
    && fill.value == (if def.multiple.GetOr(offer.Multiple?) then Multiple(Values(offer))
                      else Single(Some(Values(offer)[0])))
  }

  lemma {:induction false} FindDefIsFirst(norm: Norm, defs: seq<AutofillDef>, field: string)
    ensures match FindDef(norm, defs, field)
            case Some(def) => exists i :: FirstDef(norm, defs, field, i) && defs[i] == def
            case None => forall i :: 0 <= i < |defs| ==> norm(defs[i].name) != norm(field)
  {
    if defs != [] {
      var rest := defs[1..];
      assert forall i :: 0 <= i < |rest| ==> rest[i] == defs[i + 1];
      if norm(defs[0].name) == norm(field) {
        assert FirstDef(norm, defs, field, 0);
      } else {
        FindDefIsFirst(norm, rest, field);
        if i :| FirstDef(norm, rest, field, i) && Some(rest[i]) == FindDef(norm, rest, field) {
          assert FirstDef(norm, defs, field, i + 1);
        }
      }
    }
  }

  lemma {:induction false} FindDefaultIsFirst(norm: Norm, defaults: Defaults, name: string)
    ensures match FindDefault(norm, defaults, name)
            case Some(v) => exists i :: FirstDefault(norm, defaults, name, i) && defaults[i].1 == v
            case None => forall i :: 0 <= i < |defaults| ==> norm(defaults[i].0) != norm(name)
  {
    if defaults != [] {
      var rest := defaults[1..];
      assert forall i :: 0 <= i < |rest| ==> rest[i] == defaults[i + 1];
      if norm(defaults[0].0) == norm(name) {
        assert FirstDefault(norm, defaults, name, 0);
      } else {
        FindDefaultIsFirst(norm, rest, name);
        if i :| FirstDefault(norm, rest, name, i) && Some(rest[i].1) == FindDefault(norm, rest, name) {
          assert FirstDefault(norm, defaults, name, i + 1);
        }
      }
    }
  }

  lemma CandidateIsOffer(norm: Norm, def: AutofillDef, defaults: Defaults, offer: Value)
    ensures Offers(norm, def, defaults, offer)
            <==> PickCandidate(norm, def, defaults) == Some((Values(offer), offer.Multiple?))
  {
    FindDefaultIsFirst(norm, defaults, def.name);
  }

  lemma FillForExactly(norm: Norm, defs: seq<AutofillDef>, field: string, defaults: Defaults, fill: Fill)
    ensures FillFor(norm, defs, field, defaults) == Some(fill) <==> Fills(norm, defs, field, defaults, fill)
  {
    FindDefIsFirst(norm, defs, field);
    if FillFor(norm, defs, field, defaults) == Some(fill) {
      var i :| FirstDef(norm, defs, field, i) && FindDef(norm, defs, field) == Some(defs[i]);
      var (candidate, fromArray) := PickCandidate(norm, defs[i], defaults).value;
      var offer := if fromArray then Multiple(candidate) else Single(Some(candidate[0]));
      CandidateIsOffer(norm, defs[i], defaults, offer);
      assert FillsFrom(norm, defs[i], defaults, offer, fill);
    }
    if i, offer :| FirstDef(norm, defs, field, i) && FillsFrom(norm, defs[i], defaults, offer, fill) {
      CandidateIsOffer(norm, defs[i], defaults, offer);
    }
  }

  // The fills computed are those of the missing fields, no more and no fewer.
  lemma {:induction false} FillsAreExact(norm: Norm, defs: seq<AutofillDef>, missing: seq<string>, defaults: Defaults,
                                         fill: Fill)
    ensures fill in ComputeAutofill(norm, defs, missing, defaults) <==>
            exists field :: field in missing && Fills(norm, defs, field, defaults, fill)
  {
    if missing != [] {
      FillForExactly(norm, defs, missing[0], defaults, fill);
      FillsAreExact(norm, defs, missing[1..], defaults, fill);
      assert forall field :: field in missing <==> field == missing[0] || field in missing[1..];
    }
  }

  // They come in the order in which the fields were reported, at most one for each.
  lemma {:induction false} FillsAreInOrder(norm: Norm, defs: seq<AutofillDef>, first: seq<string>, later: seq<string>,
                                           defaults: Defaults, field: string)
    ensures ComputeAutofill(norm, defs, first + later, defaults)
            == ComputeAutofill(norm, defs, first, defaults) + ComputeAutofill(norm, defs, later, defaults)
    ensures |ComputeAutofill(norm, defs, [field], defaults)| <= 1
  {
    if first == [] {
      assert first + later == later;
    } else {
      assert (first + later)[1..] == first[1..] + later;
      FillsAreInOrder(norm, defs, first[1..], later, defaults, field);
    }
  }

  /* ---------- Overlaying the fills ---------- */

  function IndexOf(writes: seq<Write>, id: nat): (i: nat)
    ensures i <= |writes|
    ensures i < |writes| ==> writes[i].id == id
    ensures forall j :: 0 <= j < i ==> writes[j].id != id
  {
    if writes == [] || writes[0].id == id then 0 else 1 + IndexOf(writes[1..], id)
  }

  function Overlay(writes: seq<Write>, fill: Fill): seq<Write> {
    var i := IndexOf(writes, fill.id);
    if i < |writes| then writes[i := Write(fill.id, fill.value)] else writes + [Write(fill.id, fill.value)]
  }

  function Merged(writes: seq<Write>, fills: seq<Fill>): seq<Write> {
    if fills == [] then writes else Overlay(Merged(writes, fills[..|fills| - 1]), fills[|fills| - 1])
  }

  method MergeFills(existing: Option<seq<Write>>, fills: seq<Fill>) returns (merged: seq<Write>)
    ensures merged == Merged(existing.GetOr([]), fills)
  {
    merged := existing.GetOr([]);
    for n := 0 to |fills|
      invariant merged == Merged(existing.GetOr([]), fills[..n])
    {
      assert fills[..n + 1][..n] == fills[..n];
      var fill := fills[n];
      var i := 0;
      while i < |merged| && merged[i].id != fill.id
        invariant i <= |merged| && i <= IndexOf(merged, fill.id)
      {
        i := i + 1;
      }
      if i < |merged| {
        merged := merged[i := merged[i].(value := fill.value)];
      } else {
        merged := merged + [Write(fill.id, fill.value)];
      }
    }
    assert fills[..|fills|] == fills;
  }

  // The value a write gives a field.
  function Lookup(writes: seq<Write>, id: nat): Option<Value> {
    var i := IndexOf(writes, id);
    if i < |writes| then Some(writes[i].value) else None
  }

  function LastFill(fills: seq<Fill>, id: nat): Option<Value> {
    if fills == [] then None
    else if fills[|fills| - 1].id == id then Some(fills[|fills| - 1].value)
    else LastFill(fills[..|fills| - 1], id)
  }

  lemma LookupAt(writes: seq<Write>, i: nat)
    requires i < |writes| && Distinct(Ids(writes))
    ensures Lookup(writes, writes[i].id) == Some(writes[i].value)
  {}

  lemma OverlayLookup(writes: seq<Write>, fill: Fill, id: nat)
    ensures Lookup(Overlay(writes, fill), id) == if id == fill.id then Some(fill.value) else Lookup(writes, id)
    ensures Ids(writes) <= Ids(Overlay(writes, fill))
    ensures fill.id in Ids(writes) ==> Ids(Overlay(writes, fill)) == Ids(writes)
    ensures fill.id in Ids(Overlay(writes, fill))
    ensures Distinct(Ids(writes)) ==> Distinct(Ids(Overlay(writes, fill)))
  {
    var over := Overlay(writes, fill);
    var i, j := IndexOf(over, id), IndexOf(writes, id);
    assert forall k :: 0 <= k < |writes| ==> over[k].id == writes[k].id;
    assert fill.id == over[IndexOf(writes, fill.id)].id == Ids(over)[IndexOf(writes, fill.id)];
  }

  // Overlaying gives each filled field its last fill, leaves every other field and the order of the existing
  // entries alone, and never addresses a field twice.
  lemma {:induction false} MergeOverrides(writes: seq<Write>, fills: seq<Fill>, id: nat)
    ensures Lookup(Merged(writes, fills), id) ==
            if LastFill(fills, id).Some? then LastFill(fills, id) else Lookup(writes, id)
    ensures Ids(writes) <= Ids(Merged(writes, fills))
    ensures forall i :: 0 <= i < |fills| ==> fills[i].id in Ids(Merged(writes, fills))
    ensures Distinct(Ids(writes)) ==> Distinct(Ids(Merged(writes, fills)))
  {
    if fills != [] {
      var front, last := fills[..|fills| - 1], fills[|fills| - 1];
      MergeOverrides(writes, front, id);
      OverlayLookup(Merged(writes, front), last, id);
      forall i | 0 <= i < |fills| ensures fills[i].id in Ids(Merged(writes, fills)) {
        if i < |front| {
          assert front[i] == fills[i];
          var k :| 0 <= k < |Merged(writes, front)| && Ids(Merged(writes, front))[k] == fills[i].id;
          assert Ids(Merged(writes, fills))[k] == fills[i].id;
        }
      }
    }
  }

  lemma {:induction false} MergeOfKnownFields(writes: seq<Write>, fills: seq<Fill>)
    requires forall i :: 0 <= i < |fills| ==> fills[i].id in Ids(writes)
    ensures Ids(Merged(writes, fills)) == Ids(writes)
  {
    if fills != [] {
      var front, last := fills[..|fills| - 1], fills[|fills| - 1];
      assert forall i :: 0 <= i < |front| ==> front[i] == fills[i];
      MergeOfKnownFields(writes, front);
      OverlayLookup(Merged(writes, front), last, last.id);
    }
  }

  lemma SameWrites(a: seq<Write>, b: seq<Write>)
    requires Ids(a) == Ids(b) && Distinct(Ids(a))
    requires forall id: nat :: Lookup(a, id) == Lookup(b, id)
    ensures a == b
  {
    forall i | 0 <= i < |a| ensures a[i] == b[i] {
      assert Ids(a)[i] == Ids(b)[i];
      LookupAt(a, i);
      LookupAt(b, i);
    }
    assert |Ids(a)| == |Ids(b)|;
  }

  // Merging the same fills again changes nothing.
  lemma MergeIsIdempotent(writes: seq<Write>, fills: seq<Fill>)
    requires Distinct(Ids(writes))
    ensures Merged(Merged(writes, fills), fills) == Merged(writes, fills)
  {
    var once := Merged(writes, fills);
    MergeOverrides(writes, fills, 0);
    MergeOfKnownFields(once, fills);
    forall id: nat ensures Lookup(Merged(once, fills), id) == Lookup(once, id) {
      MergeOverrides(writes, fills, id);
      MergeOverrides(once, fills, id);
    }
    SameWrites(Merged(once, fills), once);
  }

  // The whole recovery path: entries that resolved, overlaid with computed fills, still address each field once,
  // and a field that no fill names keeps the caller's value.
  lemma RecoveredWriteIsSound(norm: Norm, fetched: Option<seq<Definition>>, entries: seq<Entry>, writes: seq<Write>,
                              defs: seq<AutofillDef>, missing: seq<string>, defaults: Defaults, i: nat)
    requires Resolves(norm, fetched, entries, Ids(writes)) && i < |entries|
    requires forall k :: 0 <= k < |entries| ==> writes[k].value == entries[k].value
    ensures var fills := ComputeAutofill(norm, defs, missing, defaults);
            var merged := Merged(writes, fills);
            && Distinct(Ids(merged))
            && |merged| >= |entries| && merged[i].id == writes[i].id
            && merged[i].value == LastFill(fills, writes[i].id).GetOr(entries[i].value)
  {
    var fills := ComputeAutofill(norm, defs, missing, defaults);
    var merged := Merged(writes, fills);
    MergeOverrides(writes, fills, writes[i].id);
    LookupAt(writes, i);
    assert Ids(writes)[i] == Ids(merged)[i];
    LookupAt(merged, i);
  }
}
