/** The query-parameter dictionary of the URL analyzer,
    `dict(urllib.parse.parse_qsl(query))`: the query is cut at every `&`, each
    field at its first `=`; a field without `=`, or whose value is empty, is
    dropped (blank values are not kept); name and value have `+` turned into a
    space and are then percent-decoded; the dictionary keeps, for a repeated
    name, the value that comes last.

    Percent-decoding (`urllib.parse.unquote`, with UTF-8 and replacement of bad
    bytes) is not modelled: it is the parameter `unquote`. */
module QueryString {
  import opened Wrappers
  import opened Text

  /** `s.replace('+', ' ')`. */
  function PlusToSpace(s: string): (r: string)
    ensures |r| == |s|
    ensures forall i :: 0 <= i < |s| ==> r[i] == if s[i] == '+' then ' ' else s[i]
  {
    if s == [] then [] else [if s[0] == '+' then ' ' else s[0]] + PlusToSpace(s[1..])
  }

  /** The raw name and value of a field that `parse_qsl` keeps: the text before
      and after its first `=`, the latter non-empty. */
  function RawField(field: string): (r: Option<(string, string)>)
    ensures r.Some? <==> '=' in field && IndexOf(field, '=') + 1 < |field|
    ensures r.Some? ==> field == r.value.0 + "=" + r.value.1 && '=' !in r.value.0 && r.value.1 != ""
  {
    var k := IndexOf(field, '=');
    if k + 1 < |field| then
      assert field == field[..k] + "=" + field[k + 1..];
      Some((field[..k], field[k + 1..]))
    else None
  }

  /** The decoded (name, value) pairs of the kept fields, in query order. */
  function DecodeFields(fields: seq<string>, unquote: string -> string): (pairs: seq<(string, string)>)
    ensures |pairs| <= |fields|
  {
    if fields == [] then []
    else
      var rest := DecodeFields(fields[1..], unquote);
      match RawField(fields[0])
      case None => rest
      case Some((name, value)) => [(unquote(PlusToSpace(name)), unquote(PlusToSpace(value)))] + rest
  }

  /** `parse_qsl(query)` with the default separator `&`. */
  function ParseQsl(query: string, unquote: string -> string): seq<(string, string)>
  {
    DecodeFields(Split(query, '&'), unquote)
  }

  /** `dict(pairs)` started from `acc`: the pairs are inserted one after the
      other, so a later pair for the same key replaces an earlier one. */
  function DictFrom(acc: map<string, string>, pairs: seq<(string, string)>): map<string, string>
    decreases |pairs|
  {
    if pairs == [] then acc else DictFrom(acc[pairs[0].0 := pairs[0].1], pairs[1..])
  }

  /** The query-parameter dictionary of the URL analyzer: empty
      when there is no query. */
  function QueryParams(query: string, unquote: string -> string): map<string, string>
  {
    if query == "" then map[] else DictFrom(map[], ParseQsl(query, unquote))
  }

  /** Reference definition: the value of the last pair whose key is `k`. */
  function LastValue(pairs: seq<(string, string)>, k: string): Option<string>
  {
    if pairs == [] then None
    else if pairs[|pairs| - 1].0 == k then Some(pairs[|pairs| - 1].1)
    else LastValue(pairs[..|pairs| - 1], k)
  }

  /** Reference definition at the level of the raw text: the decoded value of
      the last kept field whose decoded name is `k`. */
  function LastFieldValue(fields: seq<string>, k: string, unquote: string -> string): Option<string>
  {
    if fields == [] then None
    else
      match RawField(fields[|fields| - 1])
      case Some((name, value)) =>
        if unquote(PlusToSpace(name)) == k then Some(unquote(PlusToSpace(value)))
        else LastFieldValue(fields[..|fields| - 1], k, unquote)
      case None => LastFieldValue(fields[..|fields| - 1], k, unquote)
  }

  lemma {:induction false} LastValueAppend(pairs: seq<(string, string)>, p: (string, string), k: string)
    ensures LastValue(pairs + [p], k) == if p.0 == k then Some(p.1) else LastValue(pairs, k)
  {
    assert (pairs + [p])[..|pairs|] == pairs;
  }

  /** Inserting the pairs in order leaves, for every key, the value of the last
      pair with that key, and the earlier value where the pairs have none. */
  lemma {:induction false} DictFromLastWins(acc: map<string, string>, pairs: seq<(string, string)>, k: string)
    ensures k in DictFrom(acc, pairs) <==> LastValue(pairs, k).Some? || k in acc
    ensures k in DictFrom(acc, pairs) ==>
      DictFrom(acc, pairs)[k] == if LastValue(pairs, k).Some? then LastValue(pairs, k).value else acc[k]
    decreases |pairs|
  {
    if pairs != [] {
      var front := pairs[..|pairs| - 1];
      var p := pairs[|pairs| - 1];
      assert pairs == front + [p];
      DictFromSnoc(acc, front, p);
      DictFromLastWins(acc, front, k);
      LastValueAppend(front, p, k);
    }
  }

  /** `dict` of a list extended by one pair is the `dict` of the list updated by
      that pair. */
  lemma {:induction false} DictFromSnoc(acc: map<string, string>, pairs: seq<(string, string)>, p: (string, string))
    ensures DictFrom(acc, pairs + [p]) == DictFrom(acc, pairs)[p.0 := p.1]
    decreases |pairs|
  {
    if pairs == [] {
      assert [p][1..] == [];
    } else {
      assert (pairs + [p])[1..] == pairs[1..] + [p];
      DictFromSnoc(acc[pairs[0].0 := pairs[0].1], pairs[1..], p);
    }
  }

  /** Fields decode one by one: the pairs of two runs of fields are the pairs
      of each, in order. */
  lemma {:induction false} DecodeFieldsAppend(a: seq<string>, b: seq<string>, unquote: string -> string)
    ensures DecodeFields(a + b, unquote) == DecodeFields(a, unquote) + DecodeFields(b, unquote)
  {
    if a == [] {
      assert a + b == b;
    } else {
      assert (a + b)[1..] == a[1..] + b;
      DecodeFieldsAppend(a[1..], b, unquote);
    }
  }

  lemma {:induction false} LastValueOfDecoded(fields: seq<string>, k: string, unquote: string -> string)
    ensures LastValue(DecodeFields(fields, unquote), k) == LastFieldValue(fields, k, unquote)
    decreases |fields|
  {
    if fields != [] {
      var front := fields[..|fields| - 1];
      var f := fields[|fields| - 1];
      assert fields == front + [f];
      DecodeFieldsAppend(front, [f], unquote);
      LastValueOfDecoded(front, k, unquote);
      match RawField(f)
      case None =>
        assert DecodeFields([f], unquote) == [];
        assert DecodeFields(fields, unquote) == DecodeFields(front, unquote);
      case Some((name, value)) =>
        var p := (unquote(PlusToSpace(name)), unquote(PlusToSpace(value)));
        assert DecodeFields([f], unquote) == [p];
        LastValueAppend(DecodeFields(front, unquote), p, k);
    }
  }

  /** The dictionary maps exactly the decoded names of the kept fields, each to
      the decoded value of the last kept field with that name; with no query
      there are no parameters. */
  lemma QueryParamsLastWins(query: string, k: string, unquote: string -> string)
    ensures k in QueryParams(query, unquote) <==> LastFieldValue(Split(query, '&'), k, unquote).Some?
    ensures k in QueryParams(query, unquote) ==>
      QueryParams(query, unquote)[k] == LastFieldValue(Split(query, '&'), k, unquote).value
  {
    if query != "" {
      DictFromLastWins(map[], ParseQsl(query, unquote), k);
      LastValueOfDecoded(Split(query, '&'), k, unquote);
    } else {
      assert Split(query, '&') == [""];
      assert RawField("").None?;
    }
  }

  /** A field that has no `=` or an empty value contributes nothing, wherever it
      is added. */
  lemma DroppedFieldIgnored(query: string, field: string, unquote: string -> string)
    requires '&' !in field && RawField(field).None?
    ensures QueryParams(query + "&" + field, unquote) == QueryParams(query, unquote)
  {
    var joined := query + "&" + field;
    assert joined == query + ['&'] + field;
    SplitAppend(query, field, '&');
    SplitWithoutSeparator(field, '&');
    DecodeFieldsAppend(Split(query, '&'), [field], unquote);
    assert DecodeFields([field], unquote) == [];
    assert ParseQsl(joined, unquote) == ParseQsl(query, unquote);
    if query == "" {
      assert Split(query, '&') == [""];
      assert RawField("").None?;
      assert ParseQsl(query, unquote) == [];
    }
  }
}
