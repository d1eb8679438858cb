/**
 * The reader reads numbers through its view but strings through the underlying buffer, which may extend beyond
 * the view. Decoding a document is nevertheless independent of what lies beyond the view.
 */
module NbtView {
  import opened Bytes
  import opened Outcomes
  import opened NbtFormat
  import Utf8 = ModifiedUtf8

  /** The same place, in a buffer that ends where the view ends. */
  function Trim(c: Cursor): Cursor
    requires c.room >= 0
  {
    RawCursor(c.rest[..c.room], c.room)
  }

  /**
   * The read of the trimmed buffer succeeds exactly when the other one does without leaving the view, and
   * then with the same value and at the same place.
   */
  ghost predicate Agrees<T>(whole: Read<T>, trimmed: Read<T>) {
    match trimmed
    case Success((value, after)) =>
      whole.Success? && whole.value.0 == value && whole.value.1.room >= 0 && after == Trim(whole.value.1)
    case Failure(_) => whole.Failure? || whole.value.1.room < 0
  }

  lemma TakeTrimmed(c: Cursor, k: nat)
    requires c.room >= 0
    ensures Agrees(Take(c, k), Take(Trim(c), k))
    ensures Take(c, k).Success? == Take(Trim(c), k).Success?
  {
    if k <= c.room {
      assert c.rest[..c.room][k..] == c.rest[k..][..c.room - k];
      assert c.rest[..c.room][..k] == c.rest[..k];
    }
  }

  lemma TextTrimmed(c: Cursor)
    requires c.room >= 0
    ensures Agrees(ReadText(c), ReadText(Trim(c)))
    ensures ReadText(c).Success? ==> |ReadText(c).value.1.rest| < |c.rest|
  {
    TakeTrimmed(c, 2);
    hide BigEndian, Utf8.Decode;
    if Take(c, 2).Success? {
      var (bytes, after) := Take(c, 2).value;
      var length := BigEndian(bytes);
      if length <= after.room {
        assert after.rest[..after.room][..length] == after.rest[..length];
        assert after.rest[..after.room][length..] == after.rest[length..][..after.room - length];
      }
    }
  }

  lemma {:induction false} NumbersTrimmed(c: Cursor, width: nat, count: nat)
    requires c.room >= 0
    ensures Agrees(ReadNumbers(c, width, count), ReadNumbers(Trim(c), width, count))
    decreases count
  {
    hide BigEndian, Signed;
    TakeTrimmed(c, width);
    if count > 0 && Take(c, width).Success? {
      NumbersTrimmed(Take(c, width).value.1, width, count - 1);
    }
  }

  lemma ArrayTrimmed(tag: TagId, c: Cursor)
    requires c.room >= 0
    ensures Agrees(ReadArrayValue(tag, c), ReadArrayValue(tag, Trim(c)))
  {
    hide BigEndian, Signed, ReadNumbers;
    TakeTrimmed(c, 4);
    if Take(c, 4).Success? && ReadSigned(c, 4).value.0 >= 0 {
      var width := if tag == TAG_BYTE_ARRAY then 1 else if tag == TAG_INT_ARRAY then 4 else 8;
      NumbersTrimmed(Take(c, 4).value.1, width, ReadSigned(c, 4).value.0);
    }
  }

  /** Nothing but an empty item list can be read beyond the view. */
  lemma BeyondViewFails(c: Cursor)
    requires c.room < 0
    ensures forall k: nat :: Take(c, k).Failure?
    ensures forall tag: TagId :: ReadValue(tag, c).Failure?
    ensures forall fields :: ReadFields(c, fields).Failure?
    ensures forall element: TagId, count: nat :: count > 0 ==> ReadItems(element, count, c).Failure?
  {
    hide Signed, BigEndian, ReadNumbers;
    assert forall k: nat :: Take(c, k).Failure?;
    forall tag: TagId ensures ReadValue(tag, c).Failure? {
      assert ReadArray(c, 1).Failure? && ReadArray(c, 4).Failure? && ReadArray(c, 8).Failure?;
    }
  }

  lemma {:induction false} ValueTrimmed(tag: TagId, c: Cursor)
    requires c.room >= 0
    ensures Agrees(ReadValue(tag, c), ReadValue(tag, Trim(c)))
    decreases |c.rest|, 1
  {
    hide Trim, ReadText, ReadFields, ReadList, ReadArrayValue, Signed, BigEndian;
    if tag == TAG_LIST {
      ListTrimmed(c);
    } else if tag == TAG_COMPOUND {
      FieldsTrimmed(c, map[]);
    } else if tag == TAG_STRING {
      TextTrimmed(c);
    } else if tag == TAG_BYTE_ARRAY || tag == TAG_INT_ARRAY || tag == TAG_LONG_ARRAY {
      ArrayTrimmed(tag, c);
    } else {
      TakeTrimmed(c, 1);
      TakeTrimmed(c, 2);
      TakeTrimmed(c, 4);
      TakeTrimmed(c, 8);
    }
  }

  lemma {:induction false} ListTrimmed(c: Cursor)
    requires c.room >= 0
    ensures Agrees(ReadList(c), ReadList(Trim(c)))
    decreases |c.rest|, 0
  {
    hide Trim, Signed, BigEndian, ReadItems;
    TakeTrimmed(c, 1);
    if Take(c, 1).Success? {
      var afterTag := Take(c, 1).value.1;
      TakeTrimmed(afterTag, 4);
      if Take(afterTag, 4).Success? && ReadTagId(c).Success? && ReadSigned(afterTag, 4).value.0 > 0 {
        ItemsTrimmed(ReadTagId(c).value.0, ReadSigned(afterTag, 4).value.0, Take(afterTag, 4).value.1);
      }
    }
  }

  lemma {:induction false} ItemsTrimmed(element: TagId, count: nat, c: Cursor)
    requires c.room >= 0
    ensures Agrees(ReadItems(element, count, c), ReadItems(element, count, Trim(c)))
    decreases |c.rest|, 2
  {
    hide Trim, ReadValue;
    if count > 0 {
      ValueTrimmed(element, c);
      if ReadValue(element, c).Success? {
        var after := ReadValue(element, c).value.1;
        if after.room >= 0 {
          ItemsTrimmed(element, count - 1, after);
        } else {
          BeyondViewFails(after);
        }
      }
    }
  }

  lemma {:induction false} FieldsTrimmed(c: Cursor, fields: map<Text, Value>)
    requires c.room >= 0
    ensures Agrees(ReadFields(c, fields), ReadFields(Trim(c), fields))
    ensures ReadFields(c, fields).Success? ==> ReadFields(c, fields).value.1.room >= 0
    decreases |c.rest|, 0
  {
    hide Trim, ReadValue, ReadText, Put;
    TakeTrimmed(c, 1);
    if ReadTagId(c).Success? && ReadTagId(c).value.0 != TAG_END {
      var (tag, afterTag) := ReadTagId(c).value;
      TextTrimmed(afterTag);
      if ReadText(afterTag).Success? {
        var (name, afterName) := ReadText(afterTag).value;
        if afterName.room < 0 {
          BeyondViewFails(afterName);
        } else {
          ValueTrimmed(tag, afterName);
          if ReadValue(tag, afterName).Success? {
            var (value, after) := ReadValue(tag, afterName).value;
            if after.room < 0 {
              BeyondViewFails(after);
            } else {
              FieldsTrimmed(after, Put(fields, name, value));
            }
          }
        }
      }
    }
  }

  /** Bytes beyond the view never decide whether a document decodes, nor to what. */
  lemma DocumentIsReadWithinView(buffer: seq<Byte>, length: nat)
    requires length <= |buffer|
    ensures var whole := ReadRoot(RawCursor(buffer, length));
            var trimmed := ReadRoot(RawCursor(buffer[..length], length));
            && whole.Success? == trimmed.Success?
            && (whole.Success? ==> whole.value.0 == trimmed.value.0 && whole.value.1.room == trimmed.value.1.room)
  {
    hide ReadFields, ReadText;
    var c := RawCursor(buffer, length);
    TakeTrimmed(c, 1);
    if ReadTagId(c).Success? {
      var afterTag := ReadTagId(c).value.1;
      TextTrimmed(afterTag);
      if ReadText(afterTag).Success? {
        var afterName := ReadText(afterTag).value.1;
        if afterName.room < 0 {
          BeyondViewFails(afterName);
        } else {
          FieldsTrimmed(afterName, map[]);
        }
      }
    }
  }
}
