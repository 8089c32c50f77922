/** Layer and type names as the capabilities filter compares them. */
module Names {
  function LowerChar(c: char): char {
    if 'A' <= c <= 'Z' then c - 'A' + 'a' else c
  }

  /** Lower case, for the letters A to Z. */
  function Lower(s: string): (r: string)
    ensures |r| == |s|
  {
    seq(|s|, i requires 0 <= i < |s| => LowerChar(s[i]))
  }

  /** The letters A to Z become a to z, 32 places further; everything else stays. */
  lemma LowerShifts(s: string)
    ensures forall k :: 0 <= k < |s| ==> Lower(s)[k] as int == s[k] as int + if 'A' <= s[k] <= 'Z' then 32 else 0
  {
  }

  function LowerAll(names: set<string>): set<string> {
    set name | name in names :: Lower(name)
  }

  /** The pieces with separators between them. */
  function Join(parts: seq<string>, separator: char): string
    requires parts != []
  {
    if |parts| == 1 then parts[0] else parts[0] + [separator] + Join(parts[1..], separator)
  }

  /** The pieces of `s` between separators; always at least one. */
  function Split(s: string, separator: char): (parts: seq<string>)
    ensures |parts| >= 1
    ensures forall k :: 0 <= k < |parts| ==> separator !in parts[k]
    ensures Join(parts, separator) == s
    ensures separator !in s ==> parts == [s]
    ensures separator in s ==> |parts| >= 2
  {
    if s == [] then [[]]
    else if s[0] == separator then [[]] + Split(s[1..], separator)
    else
      var rest := Split(s[1..], separator);
      assert s == [s[0]] + s[1..];
      [[s[0]] + rest[0]] + rest[1..]
  }

  lemma SplitStep(c: char, s: string, separator: char)
    ensures Split([c] + s, separator)
         == if c == separator then [""] + Split(s, separator)
            else [[c] + Split(s, separator)[0]] + Split(s, separator)[1..]
  {
    assert ([c] + s)[1..] == s;
  }

  lemma FirstPiece(part: string, pieces: seq<string>)
    requires part != []
    ensures var shorter := [part[1..]] + pieces; [[part[0]] + shorter[0]] + shorter[1..] == [part] + pieces
  {
    assert [part[0]] + part[1..] == part;
  }

  lemma {:induction false} SplitFirst(part: string, rest: string, separator: char)
    requires separator !in part
    ensures Split(part + [separator] + rest, separator) == [part] + Split(rest, separator)
  {
    if part == [] {
      SplitStep(separator, rest, separator);
      assert [] + [separator] + rest == [separator] + rest;
    } else {
      var tail := part[1..] + [separator] + rest;
      SplitFirst(part[1..], rest, separator);
      SplitStep(part[0], tail, separator);
      FirstPiece(part, Split(rest, separator));
      assert part + [separator] + rest == [part[0]] + tail;
    }
  }

  /** Splitting undoes joining. */
  lemma {:induction false} SplitJoin(parts: seq<string>, separator: char)
    requires parts != [] && forall k :: 0 <= k < |parts| ==> separator !in parts[k]
    ensures Split(Join(parts, separator), separator) == parts
  {
    if |parts| > 1 {
      SplitJoin(parts[1..], separator);
      SplitFirst(parts[0], Join(parts[1..], separator), separator);
    }
  }

  /** Drops the name space of a type name, what is before ':', and converts to lower case. */
  function NormalizeTypename(name: string): string {
    Lower(if ':' in name then Split(name, ':')[1] else name)
  }

  /** The text is this name, or has it after its first ':', up to the next one or the end. */
  ghost predicate StandsFor(text: string, name: string) {
    ':' !in name && (text == name || exists space: string :: HasNameAfter(text, space, name))
  }

  ghost predicate HasNameAfter(text: string, space: string, name: string) {
    ':' !in space && (text == space + ":" + name || exists rest: string :: text == space + ":" + name + ":" + rest)
  }

  /** A text is compared as the lower case of the name that it stands for. */
  lemma NormalizedName(text: string, name: string)
    requires StandsFor(text, name)
    ensures NormalizeTypename(text) == Lower(name)
  {
    if text != name {
      var space: string :| HasNameAfter(text, space, name);
      if text == space + ":" + name {
        SplitFirst(space, name, ':');
      } else {
        var rest: string :| text == space + ":" + name + ":" + rest;
        assert text == space + [':'] + (name + ":" + rest);
        SplitFirst(space, name + ":" + rest, ':');
        SplitFirst(name, rest, ':');
      }
      assert text[|space|] == ':';
    }
  }

  /** Every text stands for a name. */
  lemma NameOfText(text: string) returns (name: string)
    ensures StandsFor(text, name)
  {
    var parts := Split(text, ':');
    if |parts| == 1 {
      name := text;
    } else {
      name := parts[1];
      assert text == parts[0] + ":" + Join(parts[1..], ':');
      if |parts| > 2 {
        assert Join(parts[1..], ':') == name + ":" + Join(parts[1..][1..], ':');
        assert text == parts[0] + ":" + name + ":" + Join(parts[1..][1..], ':');
      }
      assert HasNameAfter(text, parts[0], name);
    }
  }
}
