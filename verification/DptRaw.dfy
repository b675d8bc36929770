/** The raw datapoint: a list of octets as text. Models src/knxgroupobject/dptraw.cpp. */
module DptRaw {
  import opened Bits
  import opened Outcomes
  import opened Tpdu
  import opened TextNumbers

  /** The octets collected and the outcome, when reading the words of a text. */
  function Collect(text: string, collected: seq<byte>): (seq<byte>, Outcome)
    decreases |text|
  {
    match NextWord(text)
    case None => (collected, Done)
    case Some(pair) =>
      match StringValueToByte(pair.0)
      case Err(e) => (collected, Failed(e))
      case Ok(b) =>
        if |collected| + 1 > MAX_PAYLOAD_SIZE then (collected + [b], Failed(PayloadTooLong))
        else Collect(pair.1, collected + [b])
  }

  function Printed(data: seq<byte>): string
  {
    if data == [] then "" else PrintedByte(data[0]) + (" " + Printed(data[1..]))
  }

  /** The word loop that this datapoint and the telegram converter share; a failure keeps what was read so far. */
  method CollectWords(text: string, initial: seq<byte>) returns (data: seq<byte>, r: Outcome)
    requires |initial| <= MAX_PAYLOAD_SIZE
    ensures (data, r) == Collect(text, initial)
  {
    var ss := text;
    data := initial;
    var size := |initial|;
    var word := NextWord(ss);
    while word.Some?
      invariant size == |data| <= MAX_PAYLOAD_SIZE
      invariant word == NextWord(ss)
      invariant Collect(text, initial) == Collect(ss, data)
      decreases |ss|
    {
      var b := StringValueToByte(word.value.0);
      if b.Err? {
        return data, Failed(b.error);
      }
      data := data + [b.value];
      size := size + 1;
      if size > MAX_PAYLOAD_SIZE {
        return data, Failed(PayloadTooLong);
      }
      ss := word.value.1;
      word := NextWord(ss);
    }
    r := Done;
  }

  class RawDatapoint {
    var rawData: seq<byte>

    constructor ()
      ensures rawData == [0]
    {
      rawData := [0];
    }

    method FromMqtt(controlIndex: nat, value: string) returns (r: Outcome)
      modifies this
      ensures if controlIndex == 0 then (rawData, r) == Collect(value, [])
              else r == Failed(ControlIndexInvalid) && rawData == old(rawData)
    {
      if controlIndex != 0 {
        return Failed(ControlIndexInvalid);
      }
      rawData, r := CollectWords(value, []);
    }

    method FromKnx(payload: seq<byte>) returns (r: Outcome)
      modifies this
      ensures if payload != [] then r == Done && rawData == payload
              else r == Failed(PayloadSizeIncorrect) && rawData == old(rawData)
    {
      if payload != [] {
        rawData := payload;
        r := Done;
      } else {
        r := Failed(PayloadSizeIncorrect);
      }
    }

    method ToMqtt() returns (text: string)
      ensures text == Printed(rawData)
    {
      text := "";
      for i := 0 to |rawData|
        invariant text + Printed(rawData[i..]) == Printed(rawData)
      {
        assert rawData[i..][1..] == rawData[i + 1..];
        text := text + PrintedByte(rawData[i]) + " ";
        assert rawData[i..][0] == rawData[i];
      }
      assert rawData[|rawData|..] == [];
      assert text + "" == text;
    }
  }

  lemma CollectStep(b: byte, rest: string, collected: seq<byte>, space: string)
    requires (space == "" || space == " ") && rest != [] && rest[0] == ' '
    ensures Collect(space + (PrintedByte(b) + rest), collected)
            == if |collected| + 1 > MAX_PAYLOAD_SIZE then (collected + [b], Failed(PayloadTooLong))
               else Collect(rest, collected + [b])
  {
    hide StringValueToByte, PrintedByte, NextWord;
    ExtractWord(PrintedByte(b), rest);
    PrintedByteParses(b);
    assert space == "" ==> space + (PrintedByte(b) + rest) == PrintedByte(b) + rest;
  }

  lemma CollectNothing(collected: seq<byte>, space: string)
    requires space == "" || space == " "
    ensures Collect(space, collected) == (collected, Done)
  {
    NothingLeft();
  }

  /** Reading on from a printed list: all of it if it fits, a failure if not. */
  predicate ReadsAll(text: string, collected: seq<byte>, data: seq<byte>)
  {
    if |collected| + |data| <= MAX_PAYLOAD_SIZE then Collect(text, collected) == (collected + data, Done)
    else Collect(text, collected).1 == Failed(PayloadTooLong)
  }

  lemma ReadsOneMore(text: string, rest: string, collected: seq<byte>, data: seq<byte>)
    requires data != [] && |collected| <= MAX_PAYLOAD_SIZE
    requires Collect(text, collected)
             == if |collected| + 1 > MAX_PAYLOAD_SIZE then (collected + [data[0]], Failed(PayloadTooLong))
                else Collect(rest, collected + [data[0]])
    requires |collected| < MAX_PAYLOAD_SIZE ==> ReadsAll(rest, collected + [data[0]], data[1..])
    ensures ReadsAll(text, collected, data)
  {
    hide Collect;
    assert collected + [data[0]] + data[1..] == collected + data;
  }

  /** The words of a printed list are its octets, as many as a telegram can carry. */
  lemma {:induction false} CollectPrinted(data: seq<byte>, collected: seq<byte>, space: string)
    requires |collected| <= MAX_PAYLOAD_SIZE && (space == "" || space == " ")
    ensures ReadsAll(space + Printed(data), collected, data)
    decreases |data|
  {
    hide PrintedByte, Collect;
    if data == [] {
      assert space + Printed(data) == space;
      assert collected + data == collected;
      CollectNothing(collected, space);
    } else {
      hide ReadsAll;
      var rest := " " + Printed(data[1..]);
      CollectStep(data[0], rest, collected, space);
      if |collected| < MAX_PAYLOAD_SIZE {
        CollectPrinted(data[1..], collected + [data[0]], " ");
      }
      ReadsOneMore(space + Printed(data), rest, collected, data);
    }
  }

  /** Words with a space before each. */
  function Spaced(words: seq<string>): string
  {
    if words == [] then "" else " " + (words[0] + Spaced(words[1..]))
  }

  /** Words that spell these octets. */
  predicate Spell(words: seq<string>, data: seq<byte>)
  {
    |words| == |data|
    && forall i :: 0 <= i < |words| ==> IsWord(words[i]) && StringValueToByte(words[i]) == Ok(data[i])
  }

  lemma CollectOne(word: string, b: byte, rest: string, collected: seq<byte>)
    requires IsWord(word) && StringValueToByte(word) == Ok(b) && (rest == "" || rest[0] == ' ')
    requires |collected| < MAX_PAYLOAD_SIZE
    ensures Collect(" " + (word + rest), collected) == Collect(rest, collected + [b])
  {
    hide StringValueToByte, NextWord, IsWord;
    ExtractWord(word, rest);
  }

  /** Octets in any spelling are collected in the order of their words. */
  lemma {:induction false} CollectSpelled(words: seq<string>, data: seq<byte>, collected: seq<byte>)
    requires Spell(words, data) && |collected| + |data| <= MAX_PAYLOAD_SIZE
    ensures Collect(Spaced(words), collected) == (collected + data, Done)
    decreases |words|
  {
    hide Collect, StringValueToByte, IsWord;
    if words == [] {
      CollectNothing(collected, "");
      assert collected + data == collected;
    } else {
      CollectOne(words[0], data[0], Spaced(words[1..]), collected);
      CollectSpelled(words[1..], data[1..], collected + [data[0]]);
      assert collected + [data[0]] + data[1..] == collected + data;
    }
  }

  /** The octets are printed in order, five characters each. */
  lemma {:induction false} PrintedInOrder(data: seq<byte>, i: nat)
    requires i < |data|
    ensures |Printed(data)| == 5 * |data| && Printed(data)[5 * i..5 * i + 5] == PrintedByte(data[i]) + " "
  {
    hide PrintedByte;
    PrintedLength(data);
    PrintedLength(data[1..]);
    var first := PrintedByte(data[0]) + " ";
    assert Printed(data) == first + Printed(data[1..]);
    if i > 0 {
      PrintedInOrder(data[1..], i - 1);
      assert Printed(data)[5 * i..5 * i + 5] == Printed(data[1..])[5 * (i - 1)..5 * (i - 1) + 5];
    }
  }

  lemma {:induction false} PrintedLength(data: seq<byte>)
    ensures |Printed(data)| == 5 * |data|
  {
    hide PrintedByte;
    if data != [] {
      PrintedLength(data[1..]);
    }
  }

  /** Printing a list of octets and parsing the text gives the list back exactly when a telegram can carry it. */
  lemma RawTextRoundTrip(data: seq<byte>)
    ensures Collect(Printed(data), []) == (data, Done) <==> |data| <= MAX_PAYLOAD_SIZE
  {
    hide Collect, Printed;
    CollectPrinted(data, [], "");
    assert "" + Printed(data) == Printed(data);
    assert [] + data == data;
  }
}
