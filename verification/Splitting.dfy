/** Splitting text at a separator and joining it again. */
module Splitting {

  /** strings.Split. */
  function Split(text: string, separator: char): (parts: seq<string>)
    ensures parts != []
  {
    if text == "" then [""]
    else
      var rest := Split(text[1..], separator);
      if text[0] == separator then [""] + rest else [[text[0]] + rest[0]] + rest[1..]
  }

  /** strings.Join. */
  function Join(parts: seq<string>, separator: char): string
    requires parts != []
  {
    if |parts| == 1 then parts[0] else parts[0] + [separator] + Join(parts[1..], separator)
  }

  predicate Plain(parts: seq<string>, separator: char) {
    forall i | 0 <= i < |parts| :: separator !in parts[i]
  }

  /** Joining the parts gives the text back, and no part holds the separator. */
  lemma {:induction false} JoinInvertsSplit(text: string, separator: char)
    ensures Join(Split(text, separator), separator) == text && Plain(Split(text, separator), separator)
  {
    if text != "" {
      var parts, rest := Split(text, separator), Split(text[1..], separator);
      JoinInvertsSplit(text[1..], separator);
      if text[0] == separator {
        assert parts[1..] == rest;
        assert text == [separator] + text[1..];
      } else {
        assert parts[1..] == rest[1..];
        assert text == [text[0]] + text[1..];
      }
    }
  }

  /** Splitting what was joined from parts without the separator gives those parts. */
  lemma {:induction false} SplitInvertsJoin(parts: seq<string>, separator: char)
    requires parts != [] && Plain(parts, separator)
    ensures Split(Join(parts, separator), separator) == parts
    decreases |parts|, |parts[0]|
  {
    var text := Join(parts, separator);
    if parts[0] != "" {
      var shorter := [parts[0][1..]] + parts[1..];
      assert shorter[1..] == parts[1..];
      assert text == [parts[0][0]] + Join(shorter, separator);
      SplitInvertsJoin(shorter, separator);
      assert text[1..] == Join(shorter, separator);
      assert parts[0] == [parts[0][0]] + shorter[0];
      assert parts == [parts[0]] + parts[1..];
    } else if |parts| > 1 {
      SplitInvertsJoin(parts[1..], separator);
      assert text[1..] == Join(parts[1..], separator);
    }
  }

  /** Joining one part more. */
  lemma {:induction false} JoinSnoc(parts: seq<string>, last: string, separator: char)
    requires parts != []
    ensures Join(parts + [last], separator) == Join(parts, separator) + [separator] + last
  {
    if |parts| > 1 {
      JoinSnoc(parts[1..], last, separator);
      assert (parts + [last])[1..] == parts[1..] + [last];
    } else {
      assert (parts + [last])[1..] == [last];
    }
  }
}
