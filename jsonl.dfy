/** The JSON-lines record of one row: a JSON object filled by
    `Value::AppendToJson(key, object)` once per selected column, keyed by the
    column's label, then serialized (an opaque `dump`) and followed by one
    newline. */
module JsonLines {
  import opened Types

  /** Pairs each label with the cell of the same position. */
  function Zip(labels: seq<string>, vals: seq<Value>): (r: seq<(string, Value)>)
    ensures |r| == if |labels| < |vals| then |labels| else |vals|
    ensures forall i :: 0 <= i < |r| ==> r[i] == (labels[i], vals[i])
  {
    var n := if |labels| < |vals| then |labels| else |vals|;
    seq(n, i requires 0 <= i < n => (labels[i], vals[i]))
  }

  /** The object after the appends, in order: assigning a key a second time
      replaces its earlier value. */
  function JsonObject(pairs: seq<(string, Value)>): map<string, Value>
  {
    if pairs == [] then map[]
    else JsonObject(pairs[..|pairs| - 1])[pairs[|pairs| - 1].0 := pairs[|pairs| - 1].1]
  }

  /** The object holds exactly the appended keys. */
  lemma {:induction false} JsonObjectKeys(pairs: seq<(string, Value)>, k: string)
    ensures k in JsonObject(pairs) <==> exists i :: 0 <= i < |pairs| && pairs[i].0 == k
  {
    if pairs != [] {
      var n := |pairs|;
      var front := pairs[..n - 1];
      JsonObjectKeys(front, k);
      if k in JsonObject(front) {
        var i :| 0 <= i < |front| && front[i].0 == k;
        assert pairs[i].0 == k;
      }
      if exists i :: 0 <= i < n && pairs[i].0 == k {
        var i :| 0 <= i < n && pairs[i].0 == k;
        if i < n - 1 { assert front[i].0 == k; }
      }
    }
  }

  /** Each key maps to the value of its last append. */
  lemma {:induction false} JsonObjectValue(pairs: seq<(string, Value)>, i: nat)
    requires i < |pairs|
    requires forall j :: i < j < |pairs| ==> pairs[j].0 != pairs[i].0
    ensures pairs[i].0 in JsonObject(pairs) && JsonObject(pairs)[pairs[i].0] == pairs[i].1
  {
    var n := |pairs|;
    if i < n - 1 {
      var front := pairs[..n - 1];
      assert front[i] == pairs[i];
      JsonObjectValue(front, i);
    }
  }

  /** The JSON-lines renderer for the keys of a selection: a row's record
      is the serialized object of its labelled cells, then one newline. */
  function JsonlRender(labels: seq<string>, dump: map<string, Value> -> string): (r: seq<Value> -> string)
    ensures forall vals ::
      && |r(vals)| >= 1 && r(vals)[|r(vals)| - 1] == '\n'
      && r(vals)[..|r(vals)| - 1] == dump(JsonObject(Zip(labels, vals)))
  {
    vals => dump(JsonObject(Zip(labels, vals))) + "\n"
  }

  /** With distinct labels, the object of a row maps every selected column's
      label to that column's cell and has no other key. */
  lemma RowObject(labels: seq<string>, vals: seq<Value>)
    requires |labels| == |vals|
    requires forall i, j :: 0 <= i < j < |labels| ==> labels[i] != labels[j]
    ensures var obj := JsonObject(Zip(labels, vals));
      && (forall k :: k in obj <==> k in labels)
      && (forall i :: 0 <= i < |labels| ==> labels[i] in obj && obj[labels[i]] == vals[i])
  {
    var pairs := Zip(labels, vals);
    forall k ensures k in JsonObject(pairs) <==> k in labels {
      JsonObjectKeys(pairs, k);
      if k in labels {
        var i :| 0 <= i < |labels| && labels[i] == k;
        assert pairs[i].0 == k;
      }
    }
    forall i | 0 <= i < |labels| ensures labels[i] in JsonObject(pairs) && JsonObject(pairs)[labels[i]] == vals[i] {
      JsonObjectValue(pairs, i);
    }
  }
}
