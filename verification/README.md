# Verified model of the OpenAPI validator

`JsonValidator::Validate` decides whether a text is JSON and whether the value it
denotes satisfies a schema. The verdict is made by a chain of state machines and byte
loops, most of them in the JSON library kept under `thirdparty`, and by the routing and
deserialising code that chooses which schema and which bytes to check. This project
models the chain in Dafny, piece by piece, and proves that each piece computes what it is
there for. `dafny verify dfyconfig.toml` checks it.

Every component has the same shape. A *specification* says what is meant, as functions on
values (`Schema`, `Grammar`, `Tokens`, `Machine`, …). The *imperative code* is a class or
a method that works on streams, stacks, arrays and maps step by step as the original
does, proved equal to a function. The *theorems* are lemmas over all inputs that connect
that function with something independent: the recursive meaning of a schema, an RFC, an
inverse, template matching, pure inlining.

| part | files |
|---|---|
| schema validator | `SchemaSource` (schemas as written, draft 4, the constructor), `DraftFour` (when the two agree), `Schema`, `Machine` (the machine of contexts), `MachineProof`, `Validation` (it computes the meaning), `DocumentPath`, `Hasher`, `HashSeparates` (what hashes tell apart), `SchemaValidator` (the object), `JsonValidator` (the traversal), `SharedValidator` (one call, and all interleavings) |
| parsers | `Tokens`, `Grammar` (both parsers as functions), `ParserEquivalence`, `Digits`, `MachineIntegers`, `NumberReader`, `NumberGrammar`, `StringReader`, `Reader` (the object), `JsonTexts` (the grammar of RFC 8259), `JsonDocuments` (the parsers accept exactly that) |
| big integers | `Limbs`, `WordArithmetic`, `Difference`, `BigInteger` |
| writing and reading back | `Writer`, `WrittenTexts`, `Document`, `RoundTrip` |
| pointers and paths | `Pointer`, `DotSegments`, `PathTrie` |
| documents and parameters | `References`, `ReferencePaths`, `ArrayParams` (every style), `ArrayTexts` (exactly what is accepted), `ForeignSeparators`, `LabelStyle`, `DelimitedStyles` (texts the settings do not fit), `ArrayDenotes` (what the deserialised text means), `ParamValidator` (the verdict on a parameter) |
| foundations | `Common`, `Streams`, `Json`, `Utf8`, `Allocator` |

## Where the code and its description differ

- `BigInteger::Difference` loses a borrow when a limb of all ones is subtracted with a
  borrow coming in. `Difference.BorrowIsLost` is an example, and
  `Difference.DifferenceExactly` says exactly when the result is right.
- `BigInteger::operator<<=` asserts `count_ + offset <= kCapacity`, but a shift inside words
  writes word `count_ + offset`. `BigInteger.AssertionTooWeak` says exactly when the assertion
  lets a word outside be written. Reading decimals never comes near it.
- The two parsers disagree on the error code, and on nothing else, when the text begins
  with `]`, `}`, `,` or `:`.
- The texts the parsers accept are those of RFC 8259 (`JsonDocuments`), with three limits: half
  a surrogate pair is refused, and so is a number whose exponent is too big or whose conversion
  overflows; a string may hold any bytes, UTF-8 or not; and a zero byte ends the text.
- `enum` and `uniqueItems` compare hashes, and a missing required property with a
  non-empty string default is no error. The meaning of a schema used here says so too.
  `DraftFour.EnumAcceptsDoubledMember` is what comparing hashes can lead to; `HashSeparates`
  says what they do tell apart.
- Otherwise the validator decides draft 4 for plain schemas (`DraftFour.PlainSchemaDecides`).
  It departs from it for members that only `required` names, for `items` with an empty array,
  and for lower size bounds of more than 32 bits; `DraftFour` has an example of each and the
  exact difference.
- `RemoveDotSegments` can lose the slash that RFC 3986 puts in front of a path without one;
  `DotSegments.AgreesExactly` says exactly when, and `a/../b` is an example.
- References are split at slashes and decoded in no way; `ReferencePaths.ReferenceIsPointer`
  says when that is what a JSON Pointer means, and `ReferencePaths.EscapeIsKept` is an example.
- Decoded strings are put between quotes without JSON escaping.
  `ArrayDenotes.TextDenotesStrings` says exactly when the text still denotes the array of
  those strings, and the item `a","b`, which becomes two, is an example.
- Of all non-empty lists, one that ends in the empty string is refused, and no other:
  `ArrayParams.EveryStyleDeserializes`.
- An exploded label array of numbers uses the decimal point as its separator, so it is read
  back only with one item (`LabelStyle.ExplodedNumbers`).
- The label style without explode expects commas, as the repository's tests and
  version 3.0.4 of the OpenAPI Specification have it. Versions 3.0.0 to 3.0.3 put dots in
  the Style Values table; `LabelStyle.DottedLabel` says exactly what then happens.
- For spaceDelimited and pipeDelimited without explode the code expects the parameter's name
  in front, as version 3.0.4 has it and versions 3.0.0 to 3.0.3 do not. Without the name no
  list at all is read back (`DelimitedStyles.MissingName`).
- For pipeDelimited the code expects pipes as they are, as the repository's tests do and
  versions 3.0.0 to 3.0.3, where version 3.0.4 has `%7C`. `DelimitedStyles.EncodedPipes` says
  exactly what then happens.

## Model

| member | source | states |
|---|---|---|
| DraftFour.PlainSchemaDecides | thirdparty/rapidjson/include/rapidjson/schema.h:532-828 | For every plain schema as written and every value the DOM can hold, the validator compiled from it is valid at the end exactly when draft 4, section 5, holds. Plain is checked by looking at the schema: at every schema object, required names are properties unless more members may be additional, an empty tuple has no restricted additional items, and lower size bounds have 32 bits |
| DraftFour.VerdictIsDraft4 | thirdparty/rapidjson/include/rapidjson/schema.h:532-828 | Where only the outermost schema object is not plain, the verdict is that of draft 4 if and only if the validator does not accept what `AsksHere` would refuse |
| DraftFour.Parts | thirdparty/rapidjson/include/rapidjson/schema.h:532-828 | Where only this schema object can read differently, draft 4 is what the compiled schema means and three clauses on required-only names, empty tuples and wide bounds |
| DraftFour.PlainReads | thirdparty/rapidjson/include/rapidjson/schema.h:532-828 | A plain schema means the same in draft 4 and as compiled |
| DraftFour.ValidatorDecides | thirdparty/rapidjson/include/rapidjson/schema.h:2800-2892 | For every schema as written, plain or not, the validator decides the reading that fits the constructor |
| DraftFour.RequiredNameIsNotAdditional | thirdparty/rapidjson/include/rapidjson/schema.h:655-680 | `{"required":["a"],"additionalProperties":false}` accepts `{"a":1}`, against draft 4 |
| DraftFour.RequiredNameHasNoSchema | thirdparty/rapidjson/include/rapidjson/schema.h:655-680 | So it does with `"additionalProperties":{"type":"string"}` |
| DraftFour.EmptyTupleIsNoTuple | thirdparty/rapidjson/include/rapidjson/schema.h:761-766 | `{"items":[],"additionalItems":false}` accepts `[1]`, against draft 4 |
| DraftFour.WideBoundIsIgnored | thirdparty/rapidjson/include/rapidjson/schema.h:1377-1381 | `{"minItems":4294967296}` accepts `[]`, against draft 4 |
| DraftFour.EnumAcceptsDoubledMember | thirdparty/rapidjson/include/rapidjson/schema.h:932-942 | `{"enum":[{}]}` accepts every object of one member that stands there twice, because hashes are compared |
| DraftFour.MultipleOfDecides | thirdparty/rapidjson/include/rapidjson/schema.h:1564-1574 | The validator compiled from `{"multipleOf":m}` accepts the integer n if and only if some integer times m is n, below zero as well |
| SchemaSource.MultipleByRemainder | thirdparty/rapidjson/include/rapidjson/schema.h:1564-1574 | The remainder of the magnitude is zero exactly for the multiples |
| DraftFour.MinItemsOfNothing | thirdparty/rapidjson/include/rapidjson/schema.h:1377-1381 | `{"minItems":m}` accepts `[]` if and only if m is zero or has more than 32 bits |
| DraftFour.EnumOfOne | thirdparty/rapidjson/include/rapidjson/schema.h:932-942 | An `enum` of one value accepts exactly the values of its hash |
| DraftFour.EnumRefusesFalse | thirdparty/rapidjson/include/rapidjson/schema.h:932-942 | `{"enum":[true]}` accepts true, and neither false nor null |
| DraftFour.EnumRefusesOneByte | thirdparty/rapidjson/include/rapidjson/schema.h:932-942 | An `enum` of one string refuses every string that differs from it in one byte |
| DraftFour.UniqueTwo | thirdparty/rapidjson/include/rapidjson/schema.h:3029-3048 | `uniqueItems` accepts two elements exactly when they have two hashes |
| DraftFour.UniqueNumbers | thirdparty/rapidjson/include/rapidjson/schema.h:3029-3048 | It accepts `[1,2]`, and never twice the same |
| SchemaSource.CompiledMeans | thirdparty/rapidjson/include/rapidjson/schema.h:532-828 | For every schema as written and every value, the compiled schema accepts exactly what the schema means when read as it is compiled |
| SchemaSource.MemberSchemaIs | thirdparty/rapidjson/include/rapidjson/schema.h:1104-1155 | The schema chosen for a member is that of `properties`, none for a name only `required` has, else that of `additionalProperties` |
| SchemaSource.RequiredAre | thirdparty/rapidjson/include/rapidjson/schema.h:709-718 | The required flags of the compiled properties ask for exactly the required names, but for string defaults |
| SchemaSource.BuildProperties | thirdparty/rapidjson/include/rapidjson/schema.h:645-718 | Gathering names, making entries, filling in schemas and flags one after the other yields the compiled properties |
| SchemaSource.TypelessAccepts | thirdparty/rapidjson/include/rapidjson/schema.h:677-679 | The typeless schema accepts every value the DOM can hold |
| Validation.RootRun | thirdparty/rapidjson/include/rapidjson/schema.h:2800-2892 | A fresh validator fed the calls of any value is valid at the end exactly when the value is valid under the compiled schema (its recursive meaning); then its context stack is empty and its path is back where it was |
| Validation.ValueRun | thirdparty/rapidjson/include/rapidjson/schema.h:2981-3055 | The same for a value anywhere inside a run: a valid value leaves every outer context as having only seen its calls, an invalid one leaves the validator refused |
| Validation.SubsRun | thirdparty/rapidjson/include/rapidjson/schema.h:1460-1506 | The sub-validators of allOf, anyOf, oneOf and not, fed every call in parallel, decide exactly their own schemas |
| Validation.ScalarRun | thirdparty/rapidjson/include/rapidjson/schema.h:990-1080 | A null, boolean, number or string passes type, bounds, length, enum and combined checks exactly when it is valid |
| Validation.ElementsRun | thirdparty/rapidjson/include/rapidjson/schema.h:867-897 | After k elements the array context holds index, chosen item schema and hash list of k valid elements, or the run has been refused because one of them is not allowed, invalid or repeated |
| Validation.ElementCloses | thirdparty/rapidjson/include/rapidjson/schema.h:3029-3048 | When an element ends, the hash comparison in the parent refuses it exactly when it repeats an earlier element hash of a uniqueItems array |
| Validation.ArrayRun | thirdparty/rapidjson/include/rapidjson/schema.h:1205-1233 | An array is accepted exactly when its elements, size bounds, enum and combined keywords are |
| Validation.MembersRun | thirdparty/rapidjson/include/rapidjson/schema.h:1104-1155 | After k members the object context holds the properties seen so far, or the run has been refused because one of the members is not allowed or invalid |
| Validation.RequiredIsExist | thirdparty/rapidjson/include/rapidjson/schema.h:1157-1203 | The closing check on the presence flags is exactly: every required property without a non-empty string default has occurred, and the member count is within bounds |
| Validation.ObjectRun | thirdparty/rapidjson/include/rapidjson/schema.h:1082-1102 | An object is accepted exactly when its members, required properties, size bounds, enum and combined keywords are |
| Validation.BeginInside | thirdparty/rapidjson/include/rapidjson/schema.h:2851-2881 | Letting the container choose the schema before the parallel feed, or after it, is the same |
| Validation.KeyPath | thirdparty/rapidjson/include/rapidjson/schema.h:3050-3072 | Popping back to a slash removes exactly the token a key added, whatever slashes and tildes the key has |
| MachineProof.EndCheckDecides | thirdparty/rapidjson/include/rapidjson/schema.h:899-988 | Once hasher and sub-validators have seen the whole value, the end check is exactly enum, allOf, anyOf, oneOf and not |
| MachineProof.TableDecides | thirdparty/rapidjson/include/rapidjson/schema.h:944-985 | The four index ranges of the sub-validator table decide the four keywords: all, some, exactly one, none |
| Schema.NumberCheck | thirdparty/rapidjson/include/rapidjson/schema.h:1530-1624 | Whichever of the four integer calls carries a number, the case split over bound representations is the plain bound and multiple check on its value |
| Schema.FindPropertyIndex | thirdparty/rapidjson/include/rapidjson/schema.h:1509-1520 | The first property of the name is found, and none only when there is none |
| SchemaValidator.BeginOrder | thirdparty/rapidjson/include/rapidjson/schema.h:2800-2829 | The order in which the object begins a value (choose, check, create, feed, end) is the step of the machine |
| SchemaValidator.GenericSchemaValidator.BeginValue | thirdparty/rapidjson/include/rapidjson/schema.h:2981-3012 | The method pushes the context of the schema the open container chooses, or refuses |
| SchemaValidator.GenericSchemaValidator.Begin | thirdparty/rapidjson/include/rapidjson/schema.h:2831-2850 | Every call that begins a value leaves the object in the state of one machine step and returns its validity |
| SchemaValidator.GenericSchemaValidator.Parallel | thirdparty/rapidjson/include/rapidjson/schema.h:2810-2820 | Every open context sees the call in its hasher and in all its sub-validators, and nothing else changes |
| SchemaValidator.GenericSchemaValidator.Key | thirdparty/rapidjson/include/rapidjson/schema.h:2851-2861 | The object takes one machine step for a member name |
| SchemaValidator.GenericSchemaValidator.EndObject | thirdparty/rapidjson/include/rapidjson/schema.h:2864-2873 | The object takes one machine step for a closing brace |
| SchemaValidator.GenericSchemaValidator.EndArray | thirdparty/rapidjson/include/rapidjson/schema.h:2883-2892 | The object takes one machine step for a closing bracket |
| SchemaValidator.GenericSchemaValidator.EndValue | thirdparty/rapidjson/include/rapidjson/schema.h:3014-3055 | End checks, pop, uniqueness in the parent and removal of one path token, done in place, are the machine's end of a value |
| SchemaValidator.GenericSchemaValidator.Reset | thirdparty/rapidjson/include/rapidjson/schema.h:2519-2532 | From any state the validator is again as new |
| DocumentPath.PathOfRun | thirdparty/rapidjson/include/rapidjson/schema.h:2851-2861 | At the end of every still valid run the document path is exactly the RFC 6901 path of the open containers and their pending members or indices |
| DocumentPath.ValuePath | thirdparty/rapidjson/include/rapidjson/schema.h:2851-2861 | At every point of the calls of any value, while the validator is valid, the document path parses as a JSON Pointer to exactly the pending names and index texts of the open containers |
| DocumentPath.PathParses | thirdparty/rapidjson/include/rapidjson/schema.h:3057-3072 | The path of any open containers is read by `Parse` as their pending names |
| DocumentPath.NameWithSlash | thirdparty/rapidjson/include/rapidjson/schema.h:3057-3072 | While the member `a/b` is pending the path is `/a~1b` |
| DocumentPath.StepMirrors | thirdparty/rapidjson/include/rapidjson/schema.h:2981-2989 | Every call of a still valid run keeps contexts and path in step with the open containers |
| DocumentPath.EventsConform | thirdparty/rapidjson/include/rapidjson/document.h:1948-1985 | The calls of every value respect nesting, so the path invariant applies to every traversal |
| Hasher.RunIsHash | thirdparty/rapidjson/include/rapidjson/schema.h:336-381 | After the calls of any value the hasher's stack has exactly one entry more, the recursive structural hash of the value |
| HashSeparates.MixSeparates | thirdparty/rapidjson/include/rapidjson/schema.h:414-419 | One step of the hash is injective in either argument below 2^64: the prime has an inverse |
| HashSeparates.LetterA | thirdparty/rapidjson/include/rapidjson/schema.h:404-412 | The FNV-1a vector of the letter a |
| HashSeparates.WordsDiffer | thirdparty/rapidjson/include/rapidjson/schema.h:336-337 | Null, true and false have three hashes |
| HashSeparates.KindsDiffer | thirdparty/rapidjson/include/rapidjson/schema.h:336-381 | The empty string hashes like none of these, the empty array unlike the empty object, and a number unlike the string of its image |
| HashSeparates.OneByteDiffers | thirdparty/rapidjson/include/rapidjson/schema.h:404-412 | Two strings of one length that differ in one byte have two hashes |
| HashSeparates.ArraysDiffer | thirdparty/rapidjson/include/rapidjson/schema.h:374-383 | Replacing an element of an array by one of another hash changes the hash of the array |
| HashSeparates.ObjectsDiffer | thirdparty/rapidjson/include/rapidjson/schema.h:362-371 | Replacing the value or the name of a member by one of another hash changes the hash of the object |
| HashSeparates.ImagesDiffer | thirdparty/rapidjson/include/rapidjson/schema.h:338-341 | Two integers of the DOM have two images |
| HashSeparates.SmallPattern | thirdparty/rapidjson/include/rapidjson/schema.h:338-341 | The binary64 pattern in the image of an integer below 2^53 has the value of the integer |
| HashSeparates.WidePattern | thirdparty/rapidjson/include/rapidjson/schema.h:338-341 | That of a wider one has the nearest value, the even one of two |
| HashSeparates.NegativePattern | thirdparty/rapidjson/include/rapidjson/schema.h:338-341 | The sign is the highest bit |
| HashSeparates.OneIsNotTwo | thirdparty/rapidjson/include/rapidjson/schema.h:338-341 | The numbers 1 and 2 have two hashes |
| Hasher.HashIgnoresOrder | thirdparty/rapidjson/include/rapidjson/schema.h:362-371 | Values equal up to the order of the members of any object, at any depth, have the same hash |
| Hasher.MembersHashPick | thirdparty/rapidjson/include/rapidjson/schema.h:362-371 | Any member may be taken out first without changing the combined hash of an object |
| Hasher.XorAssoc | thirdparty/rapidjson/include/rapidjson/schema.h:365-368 | The word operation combining members is associative; with commutativity this is why order does not matter |
| Hasher.EventHasher.WriteBuffer | thirdparty/rapidjson/include/rapidjson/schema.h:404-412 | The byte loop pushes the FNV-1a hash of the tagged buffer |
| Hasher.EventHasher.EndObject | thirdparty/rapidjson/include/rapidjson/schema.h:362-371 | Popping names and values pairwise leaves the stack of the step function |
| Hasher.EventHasher.Handle | thirdparty/rapidjson/include/rapidjson/schema.h:336-381 | Every handler call of the object leaves the stack of the step function |
| Hasher.EventHasher.Hash | thirdparty/rapidjson/include/rapidjson/schema.h:385-388 | A whole value driven through the object: no call finds too little to pop, and its hash is left |
| Hasher.ValuePoppable | thirdparty/rapidjson/include/rapidjson/schema.h:362-381 | Every closing call of any value finds the hashes of its container on the stack |
| Hasher.IdenticalMembersCancel | thirdparty/rapidjson/include/rapidjson/schema.h:365-368 | Two identical members leave no trace in the hash of an object, so `{"a":1,"a":1}` hashes like `{}` |
| JsonValidator.Accept | thirdparty/rapidjson/include/rapidjson/document.h:1948-1985 | The traversal, stopping at the first refusal, leaves the validator as if it had received every call of the value, and returns its validity |
| SharedValidator.JsonValidator.Validate | src/validators/json_validator.cpp:17-47 | One call gives the verdict its text deserves (parser error with code and offset, or validity of the denoted tree) and leaves the shared validator as new, on every path |
| SharedValidator.DeservesOne | src/validators/json_validator.cpp:17-47 | A text deserves only one verdict |
| SharedValidator.StepKeeps | src/validators/json_validator.cpp:33-44 | Every step of every thread keeps the invariant: whenever the mutex is free the shared validator is in its initial state |
| SharedValidator.EveryInterleaving | src/validators/json_validator.cpp:17-47 | In every interleaving of any number of calls, each call that has returned has given the verdict of a fresh validator on its own text |
| ParserEquivalence.ParsersAgree | thirdparty/rapidjson/include/rapidjson/reader.h:559-590 | On every text both parsers send the same events with the same counts, accept the same texts and stop with the same code and offset; the codes differ exactly when the first significant byte is one of the four punctuation bytes |
| ParserEquivalence.ValueFollows | thirdparty/rapidjson/include/rapidjson/reader.h:1752-1765 | From every state that expects a value, the pushdown machine treats a value as recursive descent does and goes on behind it with the stack unchanged |
| ParserEquivalence.MembersFollow | thirdparty/rapidjson/include/rapidjson/reader.h:740-805 | The machine inside an object does what the member loop of recursive descent does, whatever has been counted |
| ParserEquivalence.ElementsFollow | thirdparty/rapidjson/include/rapidjson/reader.h:808-853 | The machine inside an array does what the element loop of recursive descent does, whatever has been counted |
| ParserEquivalence.DelimiterFollows | thirdparty/rapidjson/include/rapidjson/reader.h:2011-2160 | After a value: a comma counts it and goes on, the right bracket counts it, pops the frame and reports the count, anything else is the error recursive descent gives |
| Reader.BalancedKept | thirdparty/rapidjson/include/rapidjson/reader.h:2011-2160 | One frame per open container after every transition, so the state stack is never popped empty |
| Reader.GenericReader.Parse | thirdparty/rapidjson/include/rapidjson/reader.h:559-590 | The recursive parser on a stream sends the events and ends with the code and offset of the grammar function |
| Reader.GenericReader.ParseValue | thirdparty/rapidjson/include/rapidjson/reader.h:1752-1765 | Value by value, on every input |
| Reader.GenericReader.ParseMembers | thirdparty/rapidjson/include/rapidjson/reader.h:751-805 | The member loop sends the events of the member grammar and stops where it does |
| Reader.GenericReader.ParseElements | thirdparty/rapidjson/include/rapidjson/reader.h:820-853 | The element loop sends the events of the element grammar and stops where it does |
| Reader.GenericReader.IterativeParse | thirdparty/rapidjson/include/rapidjson/reader.h:2192-2224 | The loop over predicted states on a stream and a state stack ends as the pushdown machine does |
| Reader.GenericReader.Transit | thirdparty/rapidjson/include/rapidjson/reader.h:2011-2160 | One transition on stream and stack is one move of the machine |
| Reader.GenericReader.HandleError | thirdparty/rapidjson/include/rapidjson/reader.h:2163-2181 | The code of the state is reported unless an error is already set |
| Reader.GenericReader.SkipWhitespace | thirdparty/rapidjson/include/rapidjson/reader.h:266-273 | Exactly the white space at the position is skipped |
| StringReader.ParseStringToStream | thirdparty/rapidjson/include/rapidjson/reader.h:991-1068 | The copying loop resolves every escape, rejects what the literal grammar rejects with its code and offset, and terminates the output |
| StringReader.ParseHex4 | thirdparty/rapidjson/include/rapidjson/reader.h:906-925 | Four digits in either case accumulate to their value |
| NumberReader.ParseNumber | thirdparty/rapidjson/include/rapidjson/reader.h:1468-1748 | On every text the in-place parser gives the outcome of the literal function; the 32- and 64-bit accumulators never wrap; and every value of the exponent counters fits 32 bits exactly when `NumberInRange` holds of the literal |
| NumberReader.FewFractionDigitsFit | thirdparty/rapidjson/include/rapidjson/reader.h:1649-1673 | With at most 214,748,055 fraction digits every exponent value fits |
| NumberReader.BoundIsSharp | thirdparty/rapidjson/include/rapidjson/reader.h:1649-1673 | The bound is sharp: a literal of n zeros behind the point and the exponent 2147483648 fits exactly up to that number of digits |
| NumberReader.IntegerPart | thirdparty/rapidjson/include/rapidjson/reader.h:1483-1582 | The accumulators hold exactly the integer part, in the narrowest width that can hold it |
| NumberReader.FractionPart | thirdparty/rapidjson/include/rapidjson/reader.h:1584-1630 | The count of fraction digits folded into the exponent is that of the digits that can matter |
| NumberReader.NegativeExponent | thirdparty/rapidjson/include/rapidjson/reader.h:1649-1664 | A negative exponent is exact up to the cut-off; an exact condition says when no intermediate leaves 32 bits |
| NumberReader.PositiveExponent | thirdparty/rapidjson/include/rapidjson/reader.h:1666-1673 | A positive exponent is refused exactly when it is above 308 plus the folded fraction digits, otherwise exact; an exact condition says when no intermediate leaves 32 bits |
| NumberReader.SendInteger | thirdparty/rapidjson/include/rapidjson/reader.h:1728-1744 | The event of an integer from the accumulators, whatever width they used |
| NumberGrammar.NumberSound | thirdparty/rapidjson/include/rapidjson/reader.h:1468-1748 | Every accepted literal is a number of section 6 of RFC 8259; an integer literal within its 64-bit range is reported with exactly its value in the first representation that holds it, and every other literal as a double |
| NumberGrammar.NumberComplete | thirdparty/rapidjson/include/rapidjson/reader.h:1468-1748 | Every number of that grammar is read up to its very end: an integer of 64 bits as that integer, any other as the double its whole text is converted to. It is refused exactly where the conversion overflows or the exponent exceeds 308 by more than the digits of the fraction that scale it, which are all of them up to eighteen digits |
| NumberGrammar.IntegerReported | thirdparty/rapidjson/include/rapidjson/reader.h:1728-1744 | Uint up to 2^32-1 and Uint64 up to 2^64-1 without a sign, Int down to -2^31 and Int64 down to -2^63 behind a minus sign, each with the exact value |
| MachineIntegers.Negated64 | thirdparty/rapidjson/include/rapidjson/reader.h:1728-1737 | Complement and increment give the negated value down to -2^63 |
| BigIntegers.BigInteger.FromDecimals | thirdparty/rapidjson/include/rapidjson/internal/biginteger.h:45-58 | Every string of 1 to 7968 digits becomes a normalised limb array with exactly that value and at most 415 of the 416 limbs |
| BigIntegers.BigInteger.AppendDecimal64 | thirdparty/rapidjson/include/rapidjson/internal/biginteger.h:230-238 | Up to 19 further digits extend the number read so far exactly |
| BigIntegers.BigInteger.Add | thirdparty/rapidjson/include/rapidjson/internal/biginteger.h:75-90 | In-place addition with its early exit adds exactly, whenever the sum fits the capacity |
| BigIntegers.BigInteger.Multiply64 | thirdparty/rapidjson/include/rapidjson/internal/biginteger.h:92-108 | In-place multiplication by a 64-bit word is exact whenever the product fits |
| BigIntegers.BigInteger.Multiply32 | thirdparty/rapidjson/include/rapidjson/internal/biginteger.h:110-131 | In-place multiplication by a 32-bit word through half-words is exact whenever the product fits |
| BigIntegers.BigInteger.ShiftLeft | thirdparty/rapidjson/include/rapidjson/internal/biginteger.h:133-157 | In-place shift multiplies by the power of two and leaves every word above the highest written alone, where that one is inside the words |
| BigIntegers.BigInteger.AssertionTooWeak | thirdparty/rapidjson/include/rapidjson/internal/biginteger.h:138-147 | The assertion holds and a word outside is written exactly when the shifted words fill the capacity and the shift is not by whole words |
| BigIntegers.BigInteger.WritesOutside | thirdparty/rapidjson/include/rapidjson/internal/biginteger.h:138-147 | Two instances: 415 words by 65 bits, 416 words by one bit |
| BigIntegers.BigInteger.MultiplyPow5 | thirdparty/rapidjson/include/rapidjson/internal/biginteger.h:167-187 | Multiplication by any power of five through 5^27, 5^13 and the table is exact |
| BigIntegers.BigInteger.Compare | thirdparty/rapidjson/include/rapidjson/internal/biginteger.h:213-222 | Comparison from the top limb is the numeric order |
| BigIntegers.BigInteger.Difference | thirdparty/rapidjson/include/rapidjson/internal/biginteger.h:191-211 | Says which operand is smaller; the result is the absolute difference if and only if no borrow is lost |
| BigIntegers.BigInteger.ParseUint64 | thirdparty/rapidjson/include/rapidjson/internal/biginteger.h:246-253 | Up to 19 digits fit a word exactly |
| BigIntegers.DecimalBound | thirdparty/rapidjson/include/rapidjson/internal/biginteger.h:276-284 | 7968 decimal digits stay below the weight of limb 415 |
| WordArithmetic.MulAdd64 | thirdparty/rapidjson/include/rapidjson/internal/biginteger.h:256-274 | The portable path: low and high word are exactly a*b+k |
| WordArithmetic.CarryShows | thirdparty/rapidjson/include/rapidjson/internal/biginteger.h:77-84 | A carry out of a word shows in the sum being below an operand |
| Difference.DifferenceExactly | thirdparty/rapidjson/include/rapidjson/internal/biginteger.h:199-208 | The subtraction loop yields the difference of a larger and a smaller number exactly when no borrow is lost, and more otherwise |
| Difference.LostExactly | thirdparty/rapidjson/include/rapidjson/internal/biginteger.h:199-208 | A borrow is lost exactly where a limb of all ones is taken away with a borrow coming in |
| Difference.Account | thirdparty/rapidjson/include/rapidjson/internal/biginteger.h:199-208 | After any number of limbs nothing but lost borrows separates the result from the difference |
| Difference.BorrowIsLost | thirdparty/rapidjson/include/rapidjson/internal/biginteger.h:199-208 | 2^128 - (2^128 - 1) comes out as 2^128 + 1 |
| Limbs.ValInjective | thirdparty/rapidjson/include/rapidjson/internal/biginteger.h:286-290 | Two limb sequences of one length denote the same number only if they are equal |
| Writers.WritesValue | thirdparty/rapidjson/include/rapidjson/writer.h:479-497 | At whatever level a value is written, its events add the separator due there and its JSON text, and nothing is left on the level stack |
| Writers.Writer.Prefix | thirdparty/rapidjson/include/rapidjson/writer.h:479-497 | The separator from the parity and number of values of the open level, and the count moved on |
| Writers.Writer.WriteString | thirdparty/rapidjson/include/rapidjson/writer.h:383-455 | The escaping loop writes the quoted text of the escape table |
| Writers.Writer.End | thirdparty/rapidjson/include/rapidjson/writer.h:232-253 | A closing bracket pops its own level |
| Writers.Accept | thirdparty/rapidjson/include/rapidjson/document.h:1948-1985 | Traversing a value into a writer that expects one adds the separator and the text of the value |
| Documents.BuildsValue | thirdparty/rapidjson/include/rapidjson/document.h:2820-2860 | The calls of any value add exactly that value to the construction stack |
| Documents.CanonicalBuildsAll | thirdparty/rapidjson/include/rapidjson/document.h:2822-2825 | The tree does not depend on which representation carried an integer |
| Documents.GenericDocument.EndObject | thirdparty/rapidjson/include/rapidjson/document.h:2848-2852 | Names and values popped pairwise become the members of the object below them |
| Documents.GenericDocument.EndArray | thirdparty/rapidjson/include/rapidjson/document.h:2856-2860 | Popped elements become those of the array below them |
| JsonDocuments.DocumentReads | thirdparty/rapidjson/include/rapidjson/reader.h:559-590 | Every text of the grammar of RFC 8259, with any white space and any escapes, is accepted as the tree it stands for, or refused as too big because a number of it has no conversion or an exponent above 308 |
| JsonDocuments.AcceptedIsDocument | thirdparty/rapidjson/include/rapidjson/reader.h:559-590 | Every accepted text, up to its end or its first zero byte, is a text of that grammar, and is read as the tree it stands for |
| JsonDocuments.DenotesIsSpelled | thirdparty/rapidjson/include/rapidjson/reader.h:559-590 | What a text denotes is a tree it spells, and a moderate text denotes every tree it spells |
| JsonDocuments.LineFeedBetween | thirdparty/rapidjson/include/rapidjson/reader.h:266-273 | A brace, a line feed and a brace is the empty object |
| JsonDocuments.RootsRefused | thirdparty/rapidjson/include/rapidjson/reader.h:559-590 | Code and offset for the empty text, for two values and for no value |
| JsonDocuments.ObjectsRefused | thirdparty/rapidjson/include/rapidjson/reader.h:740-800 | Code and offset for a missing name and a missing colon |
| JsonDocuments.MembersRefused | thirdparty/rapidjson/include/rapidjson/reader.h:740-800 | Code and offset for a missing comma or brace |
| JsonDocuments.ArraysRefused | thirdparty/rapidjson/include/rapidjson/reader.h:803-853 | Code and offset for a missing element, comma or bracket |
| JsonDocuments.StringsRefused | thirdparty/rapidjson/include/rapidjson/reader.h:991-1068 | Code and offset for a missing quote, a raw control byte and an unknown escape |
| JsonDocuments.EscapesRefused | thirdparty/rapidjson/include/rapidjson/reader.h:1020-1045 | Code and offset for bad digits and for half a surrogate pair |
| JsonDocuments.NumbersRefused | thirdparty/rapidjson/include/rapidjson/reader.h:1468-1748 | Code and offset for a missing fraction and a missing exponent |
| JsonTexts.ValueReads | thirdparty/rapidjson/include/rapidjson/reader.h:1752-1765 | The same for a value wherever it stands |
| JsonTexts.ValueSpelled | thirdparty/rapidjson/include/rapidjson/reader.h:1752-1765 | Whatever is read as a value is the text of one |
| JsonTexts.CharReads | thirdparty/rapidjson/include/rapidjson/reader.h:991-1068 | A character for itself, each short escape, four digits of either case and a surrogate pair are read as the bytes they stand for |
| JsonTexts.CharSpelled | thirdparty/rapidjson/include/rapidjson/reader.h:991-1068 | What the string loop takes in one turn is one such character |
| JsonTexts.ValueIsTree | thirdparty/rapidjson/include/rapidjson/reader.h:1752-1765 | Whatever is accepted, the events are those of one tree, up to integer representation |
| WrittenTexts.WrittenIsSpelled | thirdparty/rapidjson/include/rapidjson/writer.h:479-497 | What the writer prints for a value is a text of that grammar that stands for the value |
| WrittenTexts.StringWritten | thirdparty/rapidjson/include/rapidjson/writer.h:383-455 | Every byte string is written as characters that stand for it |
| Writers.EscapeTable | thirdparty/rapidjson/include/rapidjson/writer.h:383-455 | The escape of every byte, by the codes of its characters |
| SharedValidator.TextVerdict | src/validators/json_validator.cpp:17-47 | A text of the grammar whose numbers are not too big deserves exactly the verdict of the schema on the value it stands for |
| SharedValidator.MalformedVerdict | src/validators/json_validator.cpp:17-47 | Any other text deserves a parser error |
| Json.FirstThatHolds | thirdparty/rapidjson/include/rapidjson/document.h:1975-1985 | The call for a number is the first of the four whose range holds it |
| RoundTrip.SafeValue | thirdparty/rapidjson/include/rapidjson/document.h:2848-2860 | No closing call of a value ever pops more than its container has pushed |
| RoundTrip.DenotesOne | thirdparty/rapidjson/include/rapidjson/document.h:2642-2652 | Every accepted text denotes exactly one tree |
| RoundTrip.ParseStream | thirdparty/rapidjson/include/rapidjson/document.h:2642-2652 | The events of a parse, whole or cut off, go to the construction stack; a parse succeeds exactly on accepted texts, and then the document is the tree the text denotes, otherwise it is unchanged and code and offset are those of the parser; the stack ends empty |
| RoundTrip.ParseIsSafe | thirdparty/rapidjson/include/rapidjson/document.h:2848-2860 | On every text, accepted or not, no event of the parse finds too little on the construction stack |
| RoundTrip.MembersAreSafe | thirdparty/rapidjson/include/rapidjson/document.h:2848-2852 | So from anywhere in an object, with the members before on the stack |
| RoundTrip.TextDenotes | thirdparty/rapidjson/include/rapidjson/writer.h:479-497 | The text written for a value denotes that value |
| RoundTrip.WriteThenParse | thirdparty/rapidjson/include/rapidjson/document.h:1948-1985 | Writing any tree of null, booleans, integers, byte strings, arrays and objects and parsing the text gives back that tree |
| Pointers.ParsedPointerSurvives | thirdparty/rapidjson/include/rapidjson/pointer.h:1063-1094 | For every text that parses, printing and parsing again gives the same names, always in string form, and in URI fragment form exactly when the names are UTF-8 |
| Pointers.PrintedPointerParses | thirdparty/rapidjson/include/rapidjson/pointer.h:924-1054 | Whatever is printed is read back as the same names |
| Pointers.AllPrintable | thirdparty/rapidjson/include/rapidjson/pointer.h:1081-1088 | String form prints every name list; the fragment form prints exactly the UTF-8 ones |
| Pointers.StringForm | thirdparty/rapidjson/include/rapidjson/pointer.h:924-1054 | A text in string form is read as exactly the names it is the print of |
| Pointers.CharacterPrinted | thirdparty/rapidjson/include/rapidjson/pointer.h:1063-1094 | How each ASCII character of a name is printed in either form, by its code |
| Pointers.IndexNames | thirdparty/rapidjson/include/rapidjson/pointer.h:1026-1039 | The names that are indices, by the codes of their characters; all others have the invalid index |
| Pointers.IndexIsValue | thirdparty/rapidjson/include/rapidjson/pointer.h:1026-1039 | The index of a digit token below 2^32 is the number it denotes |
| Pointers.GenericPointer.Parse | thirdparty/rapidjson/include/rapidjson/pointer.h:924-1054 | Parsing into one buffer yields the names or the error and offset of the parse function; every name with its terminator stays inside the buffer |
| Pointers.GenericPointer.DecodeName | thirdparty/rapidjson/include/rapidjson/pointer.h:962-1008 | One name decoded in place, with the buffer cursor strictly behind the source cursor |
| Pointers.Stringify | thirdparty/rapidjson/include/rapidjson/pointer.h:1063-1094 | The printing loops put the text of the names, or fail where a name is not UTF-8 |
| Pointers.GenericPointer.TakeTriplets | thirdparty/rapidjson/include/rapidjson/pointer.h:1102-1133 | At most four triplets in either case of digit |
| DotSegments.RemoveDotSegments | thirdparty/rapidjson/include/rapidjson/uri.h:411-458 | For every path the in-place loop leaves what `Tidied` says, never ahead of what it has read, and that is the remove_dot_segments result of section 5.2.4 of RFC 3986 if and only if no slash is lost |
| DotSegments.LoopAndRoutine | thirdparty/rapidjson/include/rapidjson/uri.h:411-458 | On every path the routine gives what the loop leaves, with one slash in front exactly where the loop has lost one |
| DotSegments.AgreesExactly | thirdparty/rapidjson/include/rapidjson/uri.h:411-458 | Loop and routine agree exactly when no slash is lost: a scan of the segments that counts how many stand and whether the first of them is empty |
| DotSegments.SlashFirstKept | thirdparty/rapidjson/include/rapidjson/uri.h:411-458 | A path that begins with a slash never loses it |
| DotSegments.RelativePathDiffers | thirdparty/rapidjson/include/rapidjson/uri.h:411-458 | On `a/../b`, for any ordinary a and b, the loop leaves `b` and the routine gives `/b` |
| DotSegments.LostSlashMadeUpFor | thirdparty/rapidjson/include/rapidjson/uri.h:411-458 | On `a/..//../b` both give `/b` |
| DotSegments.RemovesSegments | thirdparty/rapidjson/include/rapidjson/uri.h:411-458 | That routine is resolution segment by segment |
| DotSegments.NoDotSegmentLeft | thirdparty/rapidjson/include/rapidjson/uri.h:411-458 | The result is a sequence of segments none of which is a dot segment |
| DotSegments.Idempotent | thirdparty/rapidjson/include/rapidjson/uri.h:411-458 | Removing dot segments again changes nothing |
| DotSegments.OneSegment | thirdparty/rapidjson/include/rapidjson/uri.h:416-451 | Each turn of the loop keeps `newpos` at or below `pathpos`, the segments kept in the buffer, and what is still to come unchanged |
| References.OASValidatorImp.ResolveDocument | src/oas_validator_imp.cpp:346-376 | A document whose references name objects, are found through no object with a reference, and form no cycle ends as its pure inlining, without a local reference; what stands beside a reference goes |
| References.OASValidatorImp.ResolveReferences | src/oas_validator_imp.cpp:346-376 | What stands at a position is replaced by its inlining and nothing else in the document changes |
| References.LookupPartial | src/oas_validator_imp.cpp:252-263 | Along a path through no object with a reference, any half-rewritten document has an expansion of what the original has |
| References.AloneIsClear | src/oas_validator_imp.cpp:252-263 | Where references stand alone in their objects, every path to an object is such a path |
| References.OASValidatorImp.ResolveOnce | src/oas_validator_imp.cpp:350-369 | One turn of the loop: members are resolved up to the first reference, which replaces the whole object by its target as the document has it now |
| ReferencePaths.ReferenceIsPointer | src/oas_validator_imp.cpp:241-263 | The path followed is the one the reference spells as a JSON Pointer if and only if nothing in it is escaped or percent-encoded and it does not end in a slash |
| References.PartialKeepsFull | src/oas_validator_imp.cpp:354-363 | A half-inlined value still inlines to the same value |
| References.PartialTwice | src/oas_validator_imp.cpp:354-363 | Expanding an expansion is an expansion |
| References.PartialUpdate | src/oas_validator_imp.cpp:358-361 | Expanding a part of a document expands the document |
| References.FullIsRefFree | src/oas_validator_imp.cpp:346-376 | Inlining leaves no local reference |
| References.FullOfRefFree | src/oas_validator_imp.cpp:346-376 | A document without local references is left as it is |
| PathTries.SearchIsMatching | src/utils/path_trie.cpp:79-111 | With parameter children alone, the search succeeds exactly when the request's fragments match a prefix of an inserted template, and it reaches that prefix |
| PathTries.SearchFinds | src/utils/path_trie.cpp:85-104 | Whatever node matches is the one the search reaches |
| PathTries.OneTemplate | src/utils/path_trie.cpp:113-147 | Whatever matches a template is found in the trie of that template alone |
| PathTries.ParameterMatches | src/utils/path_trie.cpp:60-66 | `/a/{b}` is found for `/a/x`, and does not match `/c/x`, whatever a, b, c and x are |
| PathTries.NameInBraces | src/validators/validators_store.cpp:129-147 | The name of a parameter is what stands between its braces |
| PathTries.InsertKeys | src/utils/path_trie.cpp:50-77 | Inserting a path adds exactly the nodes on its way |
| PathTries.InsertedKept | src/utils/path_trie.cpp:58-76 | After any sequence of insertions every node's index is its depth, its parent exists, and parameter nodes know their child |
| PathTries.PathTrie.Insert | src/utils/path_trie.cpp:50-77 | The loop over fragments yields the trie with the path inserted, and keeps the invariant |
| PathTries.PathTrie.Search | src/utils/path_trie.cpp:113-147 | Success, the returned path and the parameter ranges are those of matching |
| PathTries.GetPathParamIndices | src/validators/validators_store.cpp:129-147 | Every parameter name of a template, and nothing else, with the index of its first fragment |
| PathTries.IndexLeadsToFragment | src/validators/validators_store.cpp:129-147 | The index of a parameter within the matched prefix leads to the range of the request's fragment it stands for |
| PathTries.PathBeginsTemplate | src/utils/path_trie.cpp:106-108 | The path that is returned begins an inserted template, character by character |
| PathTries.Seek | include/utils/common.hpp:110-116 | The first occurrence, or the end |
| ArrayParams.EveryStyleDeserializes | src/validators/param_validators.cpp:14-83 | For every style, explode flag and non-empty list of booleans, integers, numbers (not with exploded label) or encoded strings, the settings chosen for the style make the deserialiser return exactly that list if and only if its last item is not the empty string. The texts are the rows of the Style Values table of OpenAPI 3.0.4, but for pipes, which are not percent-encoded |
| ArrayParams.WireDeserializes | include/deserializers/array_deserializer.hpp:27-102 | The same for any settings and the text they describe, items being booleans, integers, numbers or strings |
| ArrayParams.NothingRefused | src/deserializers/array_deserializer.cpp:20-31 | The empty list is never read |
| ArrayParams.StyleIsWire | src/validators/param_validators.cpp:14-83 | The settings chosen for a style describe exactly the text of that style |
| ArrayParams.EveryStringCanTravel | include/deserializers/base_deserializer.hpp:174-203 | Every string has an encoding that meets the conditions on items |
| ArrayParams.Progress | include/deserializers/array_deserializer.hpp:48-102 | Every turn of an item loop moves the cursor, so the loops end on every input |
| ArrayParams.ArrayDeserializer.DeserializeItems | include/deserializers/array_deserializer.hpp:48-102 | The loops with their cursor append what the item function gives, or throw where it gives nothing |
| ArrayParams.ArrayDeserializer.Deserialize | src/deserializers/array_deserializer.cpp:20-67 | The whole deserialiser, on every text |
| ArrayParams.ArrayDeserializer.DeserializeString | include/deserializers/base_deserializer.hpp:174-203 | A percent-encoded string up to the terminator |
| ArrayParams.ArrayDeserializer.DeserializeInteger | include/deserializers/base_deserializer.hpp:106-120 | An optional sign and digits, refused without digits |
| ArrayParams.ArrayDeserializer.DeserializeNumber | include/deserializers/base_deserializer.hpp:122-142 | An optional sign, digits and at most one point that is not last |
| LabelStyle.DottedLabel | src/validators/param_validators.cpp:45-68 | A non-exploded label array spelled with dots, as the Style Values table of OpenAPI 3.0.0 to 3.0.3 has it, is read back if and only if it has one item and that is not empty |
| LabelStyle.TwoIntegersLost | src/validators/param_validators.cpp:45-68 | `.1.2` is a concrete failure |
| LabelStyle.ExplodedNumbers | include/deserializers/base_deserializer.hpp:122-142 | An exploded label array of numbers is read back if and only if it has one item: the separator is taken for a decimal point |
| LabelStyle.TwoNumbersRunTogether | include/deserializers/base_deserializer.hpp:122-142 | The exploded label text `.1.2` is read as the one number 1.2 |
| LabelStyle.NumbersRunTogether | include/deserializers/base_deserializer.hpp:122-142 | Whatever the separator, several numbers between dots are never read back |
| ForeignSeparators.ReadExactly | src/deserializers/array_deserializer.cpp:20-67 | Joined by any separator text that is not the one the settings have, and decodes to one byte within a string, a list is read back if and only if it has one item and that is not empty |
| ForeignSeparators.ItemsAdd | include/deserializers/array_deserializer.hpp:48-102 | What a loop over strings adds has the length of the text from the cursor on, counted in encoded bytes and separators, and ends in a comma |
| DelimitedStyles.EncodedPipes | src/validators/param_validators.cpp:45-68 | A pipeDelimited array with `%7C` between its items, as OpenAPI 3.0.4 has it, is read back if and only if it has one item and that is not empty |
| DelimitedStyles.MissingName | src/validators/param_validators.cpp:26-43 | A spaceDelimited or pipeDelimited array without the name in front, as OpenAPI 3.0.0 to 3.0.3 have it, is never read back, whatever its items and name |
| DelimitedStyles.EncodedPipeLost | src/validators/param_validators.cpp:45-68 | `a=1%7C2` is a concrete failure |
| DelimitedStyles.UnnamedListsLost | src/validators/param_validators.cpp:26-43 | `1%202` for spaceDelimited is one, and so is the same with a raw pipe for pipeDelimited |
| ArrayDenotes.TextDenotesStrings | include/deserializers/base_deserializer.hpp:174-203 | The text made of decoded strings denotes the JSON array of those strings if and only if none of them holds a quote, a backslash or a control byte |
| ArrayDenotes.ReadsItself | include/deserializers/base_deserializer.hpp:174-203 | A literal read as the very text between its quotes holds no escape, and ends at the quote behind that text |
| ArrayDenotes.OneTextForTwo | include/deserializers/base_deserializer.hpp:174-203 | A string that spells `","` between two parts gives the same text as the two parts as two strings |
| ArrayDenotes.OneReadAsTwo | include/deserializers/base_deserializer.hpp:174-203 | The one item `a","b` gives a text that denotes an array of two |
| ArrayDenotes.TextsDenoteArray | src/deserializers/array_deserializer.cpp:20-67 | Items spelled as the writer spells values give a text that denotes the array of those values |
| ParamValidators.ParamValidator.ValidateParam | src/validators/param_validators.cpp:221-230 | The verdict the deserialised text deserves, none where the deserialiser throws, and the shared validator is as new again |
| ParamValidators.StringsGetTheirVerdict | src/validators/param_validators.cpp:221-230 | In every style and with every schema, a parameter that spells strings without quote, backslash and control byte deserves exactly the verdict of the schema on the array of those strings |
| ParamValidators.ListGetsItsVerdict | src/validators/param_validators.cpp:221-230 | So does a parameter of booleans or integers as the writer spells them |
| ArrayTexts.DeserializesExactly | src/deserializers/array_deserializer.cpp:20-67 | The deserialiser accepts exactly the texts of lists whose last item is not empty, and makes of each the array of its items |
| ArrayParams.DecodedIsSpelled | include/deserializers/base_deserializer.hpp:174-203 | Decoding gives d if and only if the text spells d: a byte for itself, a plus sign for a space, a percent sign and two hexadecimal digits of either case for a byte |
| ArrayDenotes.SpelledStringsDeserialize | src/validators/param_validators.cpp:14-83 | In every style, strings without the raw separator are read as what they spell |
| ArrayDenotes.PlusIsSpace | include/deserializers/base_deserializer.hpp:193-195 | `a=x+y` is the array of the string `x y` |
| ReferencePaths.PathLeads | src/oas_validator_imp.cpp:252-263 | In `{"a":{"b":null}}` the path `a`, `b` leads to null, and `b` nowhere |
| ReferencePaths.NameWithZero | src/oas_validator_imp.cpp:353-356 | What stands behind a zero byte in the name of a reference does not matter |
| ReferencePaths.ZeroEnds | src/oas_validator_imp.cpp:252-263 | Of a name with a zero byte only what stands before it is looked up |
| ReferencePaths.EscapeIsKept | src/oas_validator_imp.cpp:241-263 | A member of the name `$ref` and the value `#/a~1b` is followed as the name `a~1b`, where a JSON Pointer has `a/b` |
| Allocator.MemoryPoolAllocator.Malloc | thirdparty/rapidjson/include/rapidjson/allocators.h:321-334 | A new block of the rounded size, disjoint from every live block and inside the used part of the head chunk; nothing exactly for size zero or a refused chunk |
| Allocator.MemoryPoolAllocator.Realloc | thirdparty/rapidjson/include/rapidjson/allocators.h:337-369 | The first min(old, new) bytes are kept whether the block stays, grows in place or moves; all other live blocks keep every byte |
| Allocator.MemoryPoolAllocator.Grow | thirdparty/rapidjson/include/rapidjson/allocators.h:350-358 | Growth in place happens only for the last block of the head chunk and keeps all live blocks apart |
| Allocator.MemoryPoolAllocator.Clear | thirdparty/rapidjson/include/rapidjson/allocators.h:277-290 | Back to the chunk the allocator came with, nothing used |
| Allocator.MemoryPoolAllocator.AddChunk | thirdparty/rapidjson/include/rapidjson/allocators.h:390-402 | A new empty head chunk; no block moves |
| Allocator.MemoryPoolAllocator.Size | thirdparty/rapidjson/include/rapidjson/allocators.h:304-310 | The sum of the used parts |
| Allocator.MemoryPoolAllocator.Capacity | thirdparty/rapidjson/include/rapidjson/allocators.h:293-299 | The sum of the capacities, never below the size |
| Allocator.SizeWithinCapacity | thirdparty/rapidjson/include/rapidjson/allocators.h:293-310 | Used bytes never exceed capacity, whatever the chunk list |
| Utf8.DecodeInvertsEncode | thirdparty/rapidjson/include/rapidjson/encodings.h:101-176 | Decoding the concatenated encodings of any sequence of scalar values gives that sequence |
| Utf8.EncodeInvertsDecode | thirdparty/rapidjson/include/rapidjson/encodings.h:101-176 | A byte string accepted to its end re-encodes to itself |
| Utf8.AcceptedLanguage | thirdparty/rapidjson/include/rapidjson/encodings.h:146-176 | The accepted byte strings are exactly the grammar of section 4 of RFC 3629 |
| Utf8.DecodeMatchesGrammar | thirdparty/rapidjson/include/rapidjson/encodings.h:204-220 | The class table accepts a character exactly where the grammar has one, and consumes exactly it |
| Utf8.DecodeSound | thirdparty/rapidjson/include/rapidjson/encodings.h:146-176 | A successful decode consumed exactly the encoding of the scalar value it reports |
| Utf8.Decode | thirdparty/rapidjson/include/rapidjson/encodings.h:146-176 | The same for the routine on a stream |
| Utf8.EncodedBits | thirdparty/rapidjson/include/rapidjson/encodings.h:102-121 | The bits of the character stand in the bytes as section 3 of RFC 3629 has it |
| Utf8.Encode | thirdparty/rapidjson/include/rapidjson/encodings.h:102-121 | The routine appends the encoding |
| Utf8.CountStringCodePoint | thirdparty/rapidjson/include/rapidjson/internal/strfunc.h:64-78 | Length in code points exists exactly for well-formed strings |

## Left out

- Floating point: a double is carried as its memory image, its schema checks are a function `doubleOk` and its conversion from decimal text is a parameter that may overflow.
- Patterns, `patternProperties`, dependencies, remote schemas and `$ref` inside schema.h.
- Malformed schema keywords, OpenAPI keywords such as `nullable`, numeric bounds that are not integers, and the cache of schemas by pointer, of which only its effect on two properties of one name is modelled.
- Schema error objects and messages, and the flag that goes on after an error.
- Validator objects of sub-schemas are values inside a context, so aliasing among heap-allocated sub-validators is not modelled; the outer object is a class updated in place.
- The null check on `validator_` in `Validate`: the model has a validator.
- That two different values always have two hashes: 64 bits cannot tell all apart, and only the changes named by `HashSeparates` are proved to show.
- Sizes and counts of 32 bits (`SizeType`) are natural numbers.
- SIMD scanning, file streams, byte order marks, in-situ parsing and `IterativeParseNext`.
- A handler that refuses events: both parsers are driven into one that accepts everything, and refusal is modelled in the traversal into the validator.
- RoundTrip.WriteThenParse: not for doubles, whose printing and reading need floating-point arithmetic.
- NumberReader.ParseNumber: `exp` and `expFrac` are unbounded integers with a ghost flag that says exactly when no value leaves 32 bits; what a machine does once one has left is not modelled.
- Writer assertions (one root, names where an object expects them) are preconditions.
- The rest of uri.h: `Parse`, `SetBase`, `SetUri` and resolution against a base are string plumbing around the dot-segment remover.
- Pointers.IndexIsValue: only below 2^32; the overflow test of the original is partial above.
- Path trie nodes are one table keyed by the fragments that lead to a node, instead of heap nodes linked by child maps, so pointer aliasing and `CopyNode` are not captured.
- PathTries.PathTrie.Search: says nothing where a parameter child stands beside other children, because the child taken then depends on hash order. It also stands for the overload without parameter ranges, which differs in nothing else.
- References.OASValidatorImp.ResolveDocument: not for references that name nothing (the original throws), that form a cycle, that name something other than an object, or whose path leads through an object with a reference of its own.
- Object parameters and primitive parameters.
- ArrayParams.EveryStyleDeserializes: strings are those without a raw separator; with style spaceDelimited and no explode that shuts out percent-encoded ones, because the terminator is the percent sign.
- ParamValidators.ListGetsItsVerdict: not for items the deserialiser copies although the writer would spell them otherwise, such as `007`, which is no JSON number, and not for numbers with a fraction.
- Allocation sizes near 2^64, where rounding up wraps, reference counts and chunk release.
- HTTP method tables, the facade, query lookup by substring and everything that only moves strings.
