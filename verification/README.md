# nmea-gui packet framing, in Dafny

A model of how nmea-gui cuts an NMEA 0183 log into numbered records, with
proofs of what the cutting guarantees.

`PacketParser.parse` reads a log line by line and hands every line to the
NMEA library's `SentenceFactory`. A line the library rejects with
`UnsupportedSentenceException` becomes an `UnknownParser` that keeps the raw
line. The sentences are grouped into packets. Each packet becomes a `Record`
labelled `"Запись " + number`. There are two framings:

- `parse(file, parseGSV)` takes packets of exactly 8 lines.
  - When `parseGSV` is false, decoded GSV sentences are dropped from the packet, but they still use up a line.
  - At end of input one more record is always added. It holds the remaining lines and may be empty.
- `parse(file)` closes a packet right after the first line the library cannot decode, so that Unknown sentence is the packet's last element.
  - At end of input the pending packet is added as a record. It may be empty.

In both framings, full records are numbered 1, 2, … in order. The
end-of-input record repeats the number of the last full record, or 0 when
there is none.

How the model is built:

- The log is a `seq<string>`, and end of input is the end of the sequence.
- The library decoder is a parameter `decode: string -> Option<string>`.
  - `Some(id)` is a decoded sentence with identifier `id`.
  - `None` is `UnsupportedSentenceException`.
- Both `parse` methods are imperative Dafny methods that follow the Java's loops, flags and counter.
- The inner `for` / `while` loop of each method is its own method: `ReadFixedPacket` and `ReadUntilUnknown`.
  - They take and return the same local variables as the Java loops: `sentences`, the reader position, `records` and `endOfTheLoop`.
- Each method is proved equal to a reference function: `FixedRecords` and `DelimitedRecords`.
  - The framing properties are lemmas about those functions.
- `Record` and `UnknownParser` are immutable values, because nothing reassigns their fields after construction.

Two consequences of the code are worth stating plainly:

- In `parse(file)` the undecodable line stays in the packet it closes (`CutAfterUnknownShape`, `DelimitedPackets`).
- In `parse(file, parseGSV)`, `8k` lines give `k + 1` records; the last is empty and repeats number `k` (`FixedRecordSizes`, `FixedNumbering`).

## Model

| member | source | states |
|---|---|---|
| PacketParser.Packet | src/main/java/parser/PacketParser.java:39-60 | defines one fixed-length packet: the lines of a run, classified and appended in order, except decoded GSV sentences when `parseGSV` is false |
| PacketParser.KeepAll | src/main/java/parser/PacketParser.java:55-57 | defines the GSV filter: keeps, in order, every sentence unless `parseGSV` is false and its id is "GSV" |
| PacketParser.FixedRecords | src/main/java/parser/PacketParser.java:26-69 | defines the result of `parse(file, parseGSV)`: record `k` holds the packet of lines `8k .. 8k + 7`, numbered `k + 1`, and a last record holds the remaining lines, numbered like the last full one |
| PacketParser.CutAfterUnknown | src/main/java/parser/PacketParser.java:84-108 | defines the closing rule of `parse(file)`: each sentence joins the pending packet and an Unknown one closes it; the cut always has a pending packet |
| PacketParser.DelimitedRecords | src/main/java/parser/PacketParser.java:71-116 | defines the result of `parse(file)`: one record per packet of the cut of the classified lines, closed packets numbered 1, 2, … and the pending one repeating the last number (or 0) |
| Records.RecordNumber | src/main/java/parser/Record.java:22-25 | reads the number back from a label made of "Запись " and a decimal number; `None` for any other text |
| Decimal.IntToString | src/main/java/parser/Record.java:24 | defines Java's decimal rendering of an `int`: a minus sign for a negative number, then its digits without leading zeros |
| PacketParser.ParseFixed | src/main/java/parser/PacketParser.java:26-69 | the records built by the loop are exactly `FixedRecords(lines, decode, parseGSV)` |
| PacketParser.ReadFixedPacket | src/main/java/parser/PacketParser.java:38-61 | the inner loop reads 8 lines, or all remaining lines when fewer than 8 are left; the latter happens exactly at end of input; the packet is `Packet` of the lines read; only at end of input is one record, numbered `i`, appended |
| PacketParser.FixedStep | src/main/java/parser/PacketParser.java:65-66 | appending the record of full packet `n`, numbered `n + 1`, to the records of the first `n` packets gives the records of the first `n + 1` packets |
| PacketParser.FixedFlush | src/main/java/parser/PacketParser.java:48-52 | the full records plus the end-of-input record (the remaining lines, numbered `n`) are the whole fixed-length result |
| PacketParser.FixedPacketsSplit | src/main/java/parser/PacketParser.java:37-67 | the packets are the full 8-line packets followed by the packet of the remaining lines |
| PacketParser.PacketIsFiltered | src/main/java/parser/PacketParser.java:39-60 | a packet holds the classified lines of its chunk, in order, minus the sentences the GSV filter drops |
| PacketParser.PacketAppend | src/main/java/parser/PacketParser.java:39-60 | the packet of two consecutive runs of lines is the packet of the first run followed by that of the second |
| PacketParser.FixedRecordSizes | src/main/java/parser/PacketParser.java:37-67 | `n` lines give `n / 8 + 1` records; none holds more than 8 sentences; with GSV kept, every full record holds exactly 8 and the last holds `n % 8`; the last record is empty when `n` is a multiple of 8 |
| PacketParser.FixedFields | src/main/java/parser/PacketParser.java:65-66 | the fields of record `k` are packet `k` |
| PacketParser.FixedSuffix | src/main/java/parser/PacketParser.java:37-67 | the packets from the `m`-th on, concatenated, are the packet of lines `8m ..` |
| PacketParser.FixedNoLoss | src/main/java/parser/PacketParser.java:39-60 | all records' sentences, in order, are the classified input lines minus exactly the sentences the GSV filter drops |
| PacketParser.FixedKeepsEveryLine | src/main/java/parser/PacketParser.java:39-60 | with `parseGSV`, the records' sentences are the classified input lines in input order, and the `k`-th comes from line `k` |
| PacketParser.FixedDropsOnlyGsv | src/main/java/parser/PacketParser.java:55-57 | without `parseGSV`, every copy of a sentence with id "GSV" is gone and every other sentence occurs as often as in the input |
| PacketParser.FixedKeepsUnknown | src/main/java/parser/PacketParser.java:58-59 | an undecodable line at position `p` is in record `p / 8` as `UnknownParser(line)`, whatever `parseGSV` is |
| PacketParser.FixedNumbering | src/main/java/parser/PacketParser.java:36-66 | full records carry the numbers 1, 2, … in order; the end-of-input record has the same name as the record before it (number 0 when alone) |
| PacketParser.Classify | src/main/java/parser/PacketParser.java:53-60 | a line becomes an Unknown sentence exactly when the decoder rejects it; the sentence's id is the decoder's answer and its source is the line |
| PacketParser.ClassifyAll | src/main/java/parser/PacketParser.java:101-107 | one sentence per line, in order, each the classification of its line |
| PacketParser.CountUnknownClassified | src/main/java/parser/PacketParser.java:104-106 | the Unknown sentences among the classified lines are as many as the lines the decoder rejects |
| PacketParser.KeepAllBounds | src/main/java/parser/PacketParser.java:55-57 | the GSV filter never adds sentences, and with `parseGSV` it removes none |
| PacketParser.KeepAllAppend | src/main/java/parser/PacketParser.java:55-57 | filtering a concatenation is filtering each part |
| PacketParser.KeepAllMember | src/main/java/parser/PacketParser.java:55-59 | a sentence the filter keeps appears in the filtered output |
| PacketParser.KeepAllDropsExactlyGsv | src/main/java/parser/PacketParser.java:55-57 | dropping GSV removes every copy of the sentences with id "GSV" and keeps every other sentence with its multiplicity |
| PacketParser.NumberedAt | src/main/java/parser/PacketParser.java:65-66 | in the records of the closed packets, record `k` holds packet `k` and is numbered `k + 1` |
| PacketParser.RecordsOfFlush | src/main/java/parser/PacketParser.java:96-99 | the result is the records of the closed packets, numbered 1, 2, …, followed by the pending packet's record, numbered like the last closed one |
| PacketParser.RecordsOfNumbering | src/main/java/parser/PacketParser.java:109-113 | records are numbered 1, 2, … and the last repeats the number before it (or 0), so the last two records have the same name |
| PacketParser.ParseUntilUnknown | src/main/java/parser/PacketParser.java:71-116 | the records built by the loop are exactly `DelimitedRecords(lines, decode)` |
| PacketParser.ReadUntilUnknown | src/main/java/parser/PacketParser.java:83-108 | the inner loop reads up to and including the first undecodable line, or to end of input; the lines read extend the cut of the earlier lines by exactly this packet, and by a new empty pending packet unless input ended; only at end of input is one record, numbered `i`, appended |
| PacketParser.CutStep | src/main/java/parser/PacketParser.java:86-107 | one more line adds its sentence to the pending packet of the cut; an undecodable line also opens a new, empty packet |
| PacketParser.CutAfterUnknownConcat | src/main/java/parser/PacketParser.java:101-107 | the packets of the cut, concatenated, give back the sentence stream |
| PacketParser.CutAfterUnknownShape | src/main/java/parser/PacketParser.java:84-108 | every packet but the last ends in its only Unknown sentence; the last holds no Unknown; there is one packet per Unknown sentence plus one |
| PacketParser.CutAfterUnknownUnique | src/main/java/parser/PacketParser.java:84-108 | any division of the stream into closed packets followed by one pending packet is the cut |
| PacketParser.DelimitedPackets | src/main/java/parser/PacketParser.java:84-108 | every record but the last is non-empty, ends with an Unknown sentence and has only decoded sentences before it; the last record holds no Unknown sentence |
| PacketParser.DelimitedRecordCount | src/main/java/parser/PacketParser.java:86-113 | there is one record per undecodable line, plus one |
| PacketParser.DelimitedNoLoss | src/main/java/parser/PacketParser.java:101-107 | the records' sentences, in order, are exactly the classified input lines: none lost, none repeated, the `k`-th from line `k` |
| PacketParser.DelimitedNumbering | src/main/java/parser/PacketParser.java:81-113 | closed records carry the numbers 1, 2, … in order; the end-of-input record has the same name as the record before it (number 0 when alone) |
| Records.NewRecord | src/main/java/parser/Record.java:22-25 | the record's fields are exactly the sentences given, with no copy or filtering |
| Records.NewRecordLabel | src/main/java/parser/Record.java:22-25 | the name is "Запись " followed by the number in decimal, and the number reads back from the name |
| Records.NameIsToString | src/main/java/parser/Record.java:18-30 | `getName()` and `toString()` return the same string |
| Records.NewRecordNameInjective | src/main/java/parser/Record.java:24 | two records get the same name exactly when they were given the same number |
| Decimal.NatToStringDigits | src/main/java/parser/Record.java:24 | a natural number renders as a non-empty string of digits without a leading zero |
| Decimal.NatToStringRoundTrip | src/main/java/parser/Record.java:24 | reading back the digits of a natural number gives that number |
| Decimal.IntToStringRoundTrip | src/main/java/parser/Record.java:24 | reading back the rendering of any integer, sign included, gives that integer |
| Decimal.IntToStringInjective | src/main/java/parser/Record.java:24 | two integers render to the same text exactly when they are equal |
| Sentences.NewUnknownParser | src/main/java/sentence/UnknownParser.java:53-60 | `toString()` returns the constructor's line verbatim, and there is no sentence id |
| Sentences.UnknownObservers | src/main/java/sentence/UnknownParser.java:9-51 | whatever the line: begin char 0, field count 0, no sentence id or talker id, not valid, not AIS, not proprietary, `toSentence(i)` null for every `i` |
| Sentences.UnknownMutatorsAreNoOps | src/main/java/sentence/UnknownParser.java:37-47 | `reset`, `setBeginChar` and `setTalkerId` change neither an observable result nor `source` |
| Sentences.SentenceId | src/main/java/sentence/UnknownParser.java:17-19 | a sentence has no id exactly when it is the Unknown fallback, which is what ends a packet of `parse(file)` |

## Left out

- Opening and reading the file is not modelled. A `FileNotFoundException` or `IOException` is printed and then behaves as end of input, so the model's input is the lines read before any error. A missing file is the empty sequence: one empty record numbered 0.
- The NMEA 0183 grammar and `SentenceFactory` are a foreign library. The decoder is a parameter.
  - A decoded sentence is represented only by its identifier and its line.
  - Runtime exceptions other than `UnsupportedSentenceException` (for example `IllegalArgumentException` on text that is not NMEA) are not caught by `parse`. They would abort it, and the model does not represent them.
- ParseFixed: the record counter is an unbounded integer. Java's `int i` wraps after 2^31 - 1 records; that overflow is not modelled.
- ParseUntilUnknown: the record counter is an unbounded integer. Java's `int i` wraps after 2^31 - 1 records; that overflow is not modelled.
- `Record` keeps a reference to the `sentences` list. The list is never modified after the record is made, because each packet starts a new list, so the model stores the sentences as a value.
- `UnknownParser.source` is a public field, but no code reassigns it, so it is modelled as immutable.
- `getSentenceDescription` (src/main/java/parser/PacketParser.java:118-336) is not part of this model. It is text formatting of library getters with floating-point rounding.
- `getPositionList` and `getPositionFile` (src/main/java/parser/PacketParser.java:338-357) are not part of this model. They do GGA casts, `%.2f` formatting and JSON output through Jackson.
- The JavaFX controllers, the CSV writing, delta-graph.js and both `Main` classes are not part of this model. They are UI, charting and entry points.
- src/main/java/parser/sentence/UnknownParser.java is not part of this model. It is an unused duplicate; `PacketParser` uses `sentence.UnknownParser`.
- `Position`, `PositionWithTime`, `Constants` and `SentenceTypes` carry no behaviour.
- Delta alignment, coordinate conversion and reference-track parsing are not part of this model, because their implementations are not among the source files.
