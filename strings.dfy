/** com.highbar.util.Strings: joining the string forms of a collection with a
    separator. Elements are given by their string forms (`String.valueOf` of
    each element). */
module Strings {

  /** The elements joined by `sep`: no separator before the first element or
      after the last one. */
  function Join(items: seq<string>, sep: string): string
  {
    if |items| == 0 then ""
    else if |items| == 1 then items[0]
    else items[0] + sep + Join(items[1..], sep)
  }

  /** Every element followed by the separator: what the loop of `valueOf` has
      built before it trims the final separator. */
  function Terminated(items: seq<string>, sep: string): string
  {
    if |items| == 0 then "" else Terminated(items[..|items| - 1], sep) + items[|items| - 1] + sep
  }

  function TotalLength(items: seq<string>): nat
  {
    if |items| == 0 then 0 else |items[0]| + TotalLength(items[1..])
  }

  lemma {:induction false} TerminatedIsJoinPlusSep(items: seq<string>, sep: string)
    requires |items| >= 1
    ensures Terminated(items, sep) == Join(items, sep) + sep
  {
    if |items| == 1 {
      assert items[..0] == [];
    } else {
      var init := items[..|items| - 1];
      TerminatedIsJoinPlusSep(init, sep);
      JoinSnoc(init, items[|items| - 1], sep);
      assert init + [items[|items| - 1]] == items;
    }
  }

  /** Appending one element to a non-empty collection appends the separator
      and that element to the joined text. */
  lemma {:induction false} JoinSnoc(items: seq<string>, x: string, sep: string)
    requires |items| >= 1
    ensures Join(items + [x], sep) == Join(items, sep) + sep + x
  {
    if |items| == 1 {
      assert (items + [x])[1..] == [x];
    } else {
      assert (items + [x])[1..] == items[1..] + [x];
      JoinSnoc(items[1..], x, sep);
    }
  }

  /** `Strings.valueOf`: append each element followed by the separator, then
      cut the last separator off when anything was appended. */
  method ValueOf(c: seq<string>, separator: string) returns (r: string)
    ensures r == Join(c, separator)
  {
    var value := "";
    for i := 0 to |c|
      invariant value == Terminated(c[..i], separator)
    {
      assert c[..i + 1][..i] == c[..i];
      value := value + c[i] + separator;
    }
    assert c[..|c|] == c;
    if |c| >= 1 {
      TerminatedIsJoinPlusSep(c, separator);
    }
    if |value| != 0 {
      value := value[..|value| - |separator|];
    }
    r := value;
  }

  /** For n >= 1 elements the joined length is the sum of the element lengths
      plus n - 1 separators. */
  lemma {:induction false} JoinLength(items: seq<string>, sep: string)
    requires |items| >= 1
    ensures |Join(items, sep)| == TotalLength(items) + (|items| - 1) * |sep|
  {
    if |items| > 1 {
      JoinLength(items[1..], sep);
    }
  }
}
