/** Joining a list of strings with a separator, as JavaScript's Array.prototype.join does. */
module Strings {

  /** `ws.join(sep)`: the strings of `ws` with one `sep` between neighbours; `[].join(sep)` is "". */
  function Join(ws: seq<string>, sep: string): string
  {
    if |ws| == 0 then []
    else if |ws| == 1 then ws[0]
    else ws[0] + sep + Join(ws[1..], sep)
  }

  /** Joining a non-empty list starts with its first string and is at least that long. */
  lemma {:induction false} JoinStartsWithFirst(ws: seq<string>, sep: string)
    requires |ws| > 0
    ensures |Join(ws, sep)| >= |ws[0]|
    ensures Join(ws, sep)[..|ws[0]|] == ws[0]
  {
    if |ws| > 1 {
      assert Join(ws, sep) == ws[0] + (sep + Join(ws[1..], sep));
    }
  }

  /** Joining a string in front of a non-empty list puts one separator between them. */
  lemma JoinCons(w: string, ws: seq<string>, sep: string)
    requires |ws| > 0
    ensures Join([w] + ws, sep) == w + sep + Join(ws, sep)
  {
    assert ([w] + ws)[1..] == ws;
  }

  /** Joining with the empty separator is plain concatenation, one string at a time. */
  lemma JoinEmptyCons(w: string, ws: seq<string>)
    ensures Join([w] + ws, []) == w + Join(ws, [])
  {
    if |ws| == 0 {
      assert [w] + ws == [w];
    } else {
      assert ([w] + ws)[1..] == ws;
    }
  }
}
