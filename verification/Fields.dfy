/** Splitting at a separator and joining again (`str::split` of the source). */
module Fields {

  function Split<T(==)>(t: seq<T>, sep: T): (fields: seq<seq<T>>)
    ensures |fields| > 0
  {
    if t == [] then [[]]
    else
      var rest := Split(t[1..], sep);
      if t[0] == sep then [[]] + rest else [[t[0]] + rest[0]] + rest[1..]
  }

  function Join<T>(fields: seq<seq<T>>, sep: T): seq<T>
    requires |fields| > 0
  {
    if |fields| == 1 then fields[0] else fields[0] + [sep] + Join(fields[1..], sep)
  }

  lemma {:induction false} JoinSplit<T>(t: seq<T>, sep: T)
    ensures Join(Split(t, sep), sep) == t
    decreases |t|
  {
    if t != [] {
      var rest := Split(t[1..], sep);
      JoinSplit(t[1..], sep);
      if t[0] == sep {
        assert Split(t, sep)[1..] == rest;
      } else {
        assert Split(t, sep)[1..] == rest[1..];
      }
    }
  }

  lemma {:induction false} SplitField<T>(field: seq<T>, sep: T)
    requires sep !in field
    ensures Split(field, sep) == [field]
    decreases |field|
  {
    if field != [] {
      SplitField(field[1..], sep);
      assert field == [field[0]] + field[1..];
    }
  }

  lemma {:induction false} SplitFirst<T>(field: seq<T>, rest: seq<T>, sep: T)
    requires sep !in field
    ensures Split(field + [sep] + rest, sep) == [field] + Split(rest, sep)
    decreases |field|
  {
    var t := field + [sep] + rest;
    if field == [] {
      assert t[1..] == rest;
    } else {
      SplitFirst(field[1..], rest, sep);
      assert t[1..] == field[1..] + [sep] + rest;
      assert field == [field[0]] + field[1..];
    }
  }
}
