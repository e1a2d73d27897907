/** The browser-side copy of the tag codec in static/scripts/dynamic_input.js: the parser that
    fills the per-tag input boxes from the stored text, and the loop that writes the boxes back
    into the hidden form field as space-separated text. */
module DynamicInput {
  import opened TagCodec

  /** parseSpaceSeparatedTags, with the switch written out: the backslash case has no break, so
      when the backslash is escaped control falls into the space case. The result is the Set the
      function builds before sorting it. */
  method ParseSpaceSeparatedTags(inp: string) returns (tags: set<string>)
    ensures tags == ParsedSet(inp)
  {
    tags := {};
    var tag := "";
    var escaped := false;
    for i := 0 to |inp|
      invariant RunFrom(ScanState(tags, tag, escaped), inp[i..]) == RunFrom(Start, inp)
    {
      var c := inp[i];
      assert inp[i..] == [c] + inp[i + 1..];
      var fellThrough := false;
      if c == '\\' {
        if !escaped {
          escaped := true;
          continue;
        }
        fellThrough := true;
      }
      if c == ' ' || fellThrough {
        // Reached from the backslash case only with escaped set, so that path never splits.
        assert fellThrough ==> escaped;
        if !escaped {
          tags := tags + {tag};
          tag := "";
          continue;
        }
      }
      escaped := false;
      tag := tag + [c];
    }
    if tag != "" {
      tags := tags + {tag};
    }
  }

  /** The text handleInput writes for the values of the input boxes: empty boxes are skipped, and
      a space goes before every other value whose box is not the first one. */
  function SerialisedInputs(values: seq<string>): string
  {
    if |values| == 0 then ""
    else
      var prefix := SerialisedInputs(values[..|values| - 1]);
      var v := values[|values| - 1];
      if v == "" then prefix
      else prefix + (if |values| - 1 > 0 then " " else "") + Escape(v)
  }

  /** The serialisation loop of handleInput. */
  method SerialiseInputs(values: seq<string>) returns (serialised: string)
    ensures serialised == SerialisedInputs(values)
  {
    serialised := "";
    for i := 0 to |values|
      invariant serialised == SerialisedInputs(values[..i])
    {
      assert values[..i + 1][..i] == values[..i];
      var tag := values[i];
      if tag == "" {
        continue;
      }
      if i > 0 {
        serialised := serialised + " ";
      }
      serialised := serialised + Escape(tag);
    }
    assert values[..|values|] == values;
  }

  /** The non-empty values, in box order. */
  function Filled(values: seq<string>): seq<string>
  {
    if |values| == 0 then []
    else
      var v := values[|values| - 1];
      Filled(values[..|values| - 1]) + (if v == "" then [] else [v])
  }

  /** The filled values are exactly the non-empty values of the boxes. */
  lemma {:induction false} FilledSpec(values: seq<string>)
    ensures forall t | t in Filled(values) :: t != ""
    ensures Elements(Filled(values)) == set v | v in values && v != ""
  {
    if |values| > 0 {
      var v := values[|values| - 1];
      var init := values[..|values| - 1];
      FilledSpec(init);
      assert values == init + [v];
      assert forall x :: x in values <==> x in init || x == v;
      assert Elements(Filled(values)) == Elements(Filled(init)) + (if v == "" then {} else {v});
    }
  }

  /** When no box is filled, the first box is empty. */
  lemma NoneFilledMeansFirstEmpty(values: seq<string>)
    requires |values| > 0
    ensures |Filled(values)| == 0 ==> values[0] == ""
  {
    if values[0] != "" {
      FilledSpec(values);
      assert values[0] in Elements(Filled(values));
    }
  }

  /** An empty first box followed by a filled one: the text then starts with a space. */
  predicate LeadingGap(values: seq<string>)
  {
    |values| > 0 && values[0] == "" && |Filled(values)| > 0
  }

  /** The serialised text is the joined filled values, after one stray space in the LeadingGap case. */
  lemma {:induction false} SerialisedShape(values: seq<string>)
    ensures SerialisedInputs(values) == (if LeadingGap(values) then " " else "") + Joined(Filled(values))
    decreases |values|
  {
    if |values| > 0 {
      var init := values[..|values| - 1];
      var v := values[|values| - 1];
      SerialisedShape(init);
      var before := Filled(init);
      var gap := if LeadingGap(init) then " " else "";
      if |values| > 1 {
        assert init[0] == values[0];
        NoneFilledMeansFirstEmpty(init);
      }
      if v != "" {
        if |before| == 0 {
          JoinedOne(v);
        } else {
          JoinedSnoc(before, v);
          AppendAssociates(gap, Joined(before), " ", Escape(v));
        }
      } else {
        assert Filled(values) == before;
        assert LeadingGap(values) == LeadingGap(init);
      }
    }
  }

  /** One more filled value joins on after a single space. */
  lemma JoinedSnoc(ts: seq<string>, t: string)
    requires |ts| > 0
    ensures Joined(ts + [t]) == Joined(ts) + " " + Escape(t)
  {
    assert (ts + [t])[..|ts|] == ts;
  }

  lemma JoinedOne(t: string)
    ensures Joined([] + [t]) == Escape(t)
  {
    assert [] + [t] == [t];
  }

  lemma AppendAssociates(a: string, b: string, c: string, d: string)
    ensures a + b + c + d == a + (b + c + d)
  {
  }

  /** Exactly what the server reads back from the field: the filled values, plus the empty tag
      when the first box is empty and a later one is not. */
  lemma ParsedInputs(values: seq<string>)
    ensures ParsedSet(SerialisedInputs(values))
         == (set v | v in values && v != "") + (if LeadingGap(values) then {""} else {})
  {
    var filled := Filled(values);
    FilledSpec(values);
    SerialisedShape(values);
    RoundTrip(filled);
    if |filled| > 0 {
      assert filled[|filled| - 1] in filled;
    }
    assert ParsedSet(Joined(filled)) == Elements(filled);
    if LeadingGap(values) {
      LeadingSpaceGivesEmptyTag(Joined(filled));
      assert SerialisedInputs(values) == " " + Joined(filled);
    } else {
      assert SerialisedInputs(values) == Joined(filled);
    }
  }

  /** The round trip holds when the first box is filled or every box is empty, and fails in the
      LeadingGap case, where a "" tag appears. */
  lemma InputsRoundTrip(values: seq<string>)
    ensures ParsedSet(SerialisedInputs(values)) == (set v | v in values && v != "")
        <==> !LeadingGap(values)
  {
    ParsedInputs(values);
  }

  /** A concrete instance: an empty first box and "news" in the second give " news", read back
      as the tags "" and "news". */
  lemma EmptyFirstBoxAddsEmptyTag()
    ensures SerialisedInputs(["", "news"]) == " " + "news"
    ensures ParsedSet(SerialisedInputs(["", "news"])) == {"", "news"}
  {
    ExampleText();
    LeadingSpaceGivesEmptyTag("news");
    PlainTagParsed("news");
  }

  lemma ExampleText()
    ensures SerialisedInputs(["", "news"]) == " " + "news"
  {
    var values := ["", "news"];
    assert values[..1] == [""] && values[..1][..0] == [];
    EscapePlain("news");
    assert SerialisedInputs(values) == SerialisedInputs([""]) + " " + Escape("news");
  }

  /** The serialisation with the separator decided by the number of values already written, not
      by the box index: a space goes between two written values and nowhere else. */
  method SerialiseInputsByWritten(values: seq<string>) returns (serialised: string)
    ensures serialised == Joined(Filled(values))
    ensures ParsedSet(serialised) == set v | v in values && v != ""
  {
    serialised := "";
    var written := 0;
    for i := 0 to |values|
      invariant written == |Filled(values[..i])|
      invariant serialised == Joined(Filled(values[..i]))
    {
      var init := values[..i + 1][..i];
      assert init == values[..i];
      var tag := values[i];
      assert Filled(values[..i + 1]) == Filled(values[..i]) + (if tag == "" then [] else [tag]);
      if tag == "" {
        assert Filled(values[..i + 1]) == Filled(values[..i]);
        continue;
      }
      ghost var next := Filled(values[..i]) + [tag];
      if written > 0 {
        serialised := serialised + " ";
        assert next[..|next| - 1] == Filled(values[..i]);
        assert Joined(next) == Joined(Filled(values[..i])) + " " + Escape(tag);
      } else {
        assert next == [tag];
      }
      serialised := serialised + Escape(tag);
      assert serialised == Joined(next);
      written := written + 1;
    }
    assert values[..|values|] == values;
    var filled := Filled(values);
    FilledSpec(values);
    RoundTrip(filled);
    if |filled| > 0 {
      assert filled[|filled| - 1] in filled;
    }
  }
}
