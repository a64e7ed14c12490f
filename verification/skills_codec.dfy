/** The server stores a skill list in one TEXT column as the comma-joined
    string (`','.join(skills)` on create) and reads it back by splitting on
    commas, with the empty string read as the empty list. */
module SkillsCodec {
  import opened Text

  const Comma: char := ','

  /** The stored form of a skill list: its elements joined by commas. */
  function Encode(skills: seq<string>): string
  {
    Join(skills, Comma)
  }

  /** The list read back from a stored column: the comma-separated pieces,
      or no skills at all when the column is empty. */
  function Decode(stored: string): (r: seq<string>)
    ensures stored == "" <==> r == []
    ensures stored != "" ==> |r| == CountChar(stored, Comma) + 1
    ensures NoSep(r, Comma)
  {
    if stored == "" then [] else Split(stored, Comma)
  }

  /** The skills as a set, the form the matcher scores with. */
  function AsSet(skills: seq<string>): set<string>
  {
    set x | x in skills
  }

  /** A skill list the comma-joined column keeps faithfully: no element holds
      a comma, and it is not the one-element list `[""]`. */
  predicate Storable(skills: seq<string>)
  {
    NoSep(skills, Comma) && skills != [""]
  }

  /** Storing a decoded column gives back the very same column, for every column. */
  lemma EncodeDecode(stored: string)
    ensures Encode(Decode(stored)) == stored
  {
    if stored != "" {
      JoinSplit(stored, Comma);
    }
  }

  /** A list survives being stored and read back exactly when none of its
      elements holds a comma and it is not the one-element list `[""]`. */
  lemma DecodeEncode(skills: seq<string>)
    ensures Decode(Encode(skills)) == skills <==> Storable(skills)
  {
    if NoSep(skills, Comma) && skills != [""] {
      if |skills| > 0 {
        if |skills| == 1 {
          assert Encode(skills) == skills[0];
        } else {
          JoinCount(skills, Comma);
        }
        SplitJoin(skills, Comma);
      }
    } else if skills == [""] {
      assert Encode(skills) == "";
    } else {
      assert !NoSep(skills, Comma);
      SepsInsideZero(skills, Comma);
      JoinCount(skills, Comma);
    }
  }

  /** The empty list is stored as the empty string, which reads back as the empty list. */
  lemma EmptyListRoundTrip()
    ensures Encode([]) == "" && Decode("") == []
  {
  }

  /** The one list with no comma that does not survive: `[""]` reads back as `[]`. */
  lemma BlankSkillIsLost()
    ensures Decode(Encode([""])) == []
  {
    assert Encode([""]) == "";
  }
}
