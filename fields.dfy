/** The record split of `parse_line`, also written inline in both aggregation
    loops: `line.split(";").next_tuple()` takes the first two fields of a line cut
    at every `;`, and gives nothing when there are fewer than two. */
module Fields {
  import opened Wrappers

  const Separator: char := ';'

  /** The position of the first `;`. */
  function FirstSeparator(s: string): (i: nat)
    requires Separator in s
    ensures i < |s| && s[i] == Separator && Separator !in s[..i]
  {
    if s[0] == Separator then 0
    else
      assert s == [s[0]] + s[1..];
      var j := FirstSeparator(s[1..]);
      assert s[..j + 1] == [s[0]] + s[1..][..j];
      j + 1
  }

  /** The first `;` is the one with no `;` before it. */
  lemma FirstSeparatorAt(s: string, i: nat)
    requires i < |s| && s[i] == Separator && Separator !in s[..i]
    ensures FirstSeparator(s) == i
  {
  }

  /** The field that starts `s`: everything up to the next `;`, or all of `s`. */
  function Field(s: string): string
  {
    if Separator in s then s[..FirstSeparator(s)] else s
  }

  /** The city and the temperature text of a line.  `None` is the panic of
      `unwrap` on a line with no `;`; fields after the second are ignored. */
  function SplitFields(line: string): (r: Option<(string, string)>)
    ensures r.Some? <==> Separator in line
    ensures r.Some? ==>
      var (key, value) := r.value;
      var end := |key| + 1 + |value|;
      && Separator !in key && Separator !in value
      && end <= |line|
      && line[..end] == key + [Separator] + value
      && (end < |line| ==> line[end] == Separator)
  {
    if Separator !in line then None
    else
      var i := FirstSeparator(line);
      var rest := line[i + 1..];
      var value := Field(rest);
      assert Separator in rest ==> rest[..FirstSeparator(rest)] == value;
      assert line[..i + 1 + |value|] == line[..i] + [Separator] + value;
      Some((line[..i], value))
  }

  /** A line built from a key and a value without `;`, followed by nothing or by
      more fields, splits back into that key and that value. */
  lemma SplitFieldsJoin(key: string, value: string, extra: string)
    requires Separator !in key && Separator !in value
    requires extra == [] || extra[0] == Separator
    ensures SplitFields(key + [Separator] + value + extra) == Some((key, value))
  {
    var line := key + [Separator] + value + extra;
    assert line[|key|] == Separator;
    assert line[..|key|] == key;
    FirstSeparatorAt(line, |key|);
    var rest := line[|key| + 1..];
    assert rest == value + extra;
    assert rest[..|value|] == value;
    if extra != [] {
      assert rest[|value|] == Separator;
      FirstSeparatorAt(rest, |value|);
    } else {
      assert rest == value;
    }
    assert Field(rest) == value;
  }
}
