# TextFileBasedStore in Dafny

A model of the text-file record store of AspIdentityCoreDemo
(`DataAccess/TextFileBasedStore.cs`), with proofs about it. The store keeps one
file per record in a single `DataStore` directory. Each file is named
`<Id>.usr` and holds the record's public properties in declaration order. Each
property is written as its `ToString()` text, or `NULL` for a null value, and
is followed by one tab. Reading a file splits it on tabs and drops empty
pieces. It then checks that the number of pieces equals the number of
properties, and converts each piece by the property's type (string, `Guid`,
`int`).

The project has five files:

- `wrappers.dfy` (module `Wrappers`) holds `Option` and `Result`.
- `dotnet_text.dfy` (module `DotNetText`) covers the .NET library behaviour the store depends on:
  - the exceptions it can raise;
  - white-space trimming;
  - `String.Split(…, RemoveEmptyEntries)`;
  - `int.ToString` and `int.Parse` over 32-bit integers;
  - `Guid.ToString()`, the lower-case "D" form, and `Guid.Parse`.
- `codec.dfy` (module `Codec`) covers the file format:
  - `GetFileContent` and `ReadFileContent` as loops, each proved equal to a specification function (`Encode`, `Decode`);
  - `Parse`;
  - the round trip and the ways it fails.
- `store.dfy` (module `Store`) models the store as a class:
  - the directory is a map from file name to content, plus a flag saying whether the directory exists;
  - it has methods `Create`, `Delete`, `GetById`, `GetAll` and `Update`;
  - `GetFileLocation` and `EnsureDirectoryPresent`.
- `user.dfy` (module `Users`) covers the record type the application stores, `Core/User.cs`:
  - a `Guid` key followed by four strings;
  - client scenarios over the store;
  - a concrete user.

Reflection is replaced by a schema. A schema lists the declared kinds of the
properties in order and gives the position of `Id`. A record is a sequence of
`Option<Value>`, where `None` stands for null.

The code ends every property with a tab, including the last one, and the model
does the same.

`ReadFileContent` passes `null` to the setter for a `NULL` piece. For a
property of a value type (`Guid`, `int`), .NET reflection passes the type's
zero value instead, so such a property reads back as `Guid.Empty` or `0`. The
model does the same (`Codec.NullOf`).

## Model

| member | source | states |
|---|---|---|
| DotNetText.SplitRemoveEmpty | DataAccess/TextFileBasedStore.cs:131 | every piece of the split is non-empty and contains no separator |
| DotNetText.ParseInt32 | DataAccess/TextFileBasedStore.cs:166-169 | `int.Parse` fails only with FormatException or OverflowException |
| DotNetText.Int32RoundTrip | DataAccess/TextFileBasedStore.cs:166-169 | `int.Parse` of the text `ToString` writes for an int returns that int |
| DotNetText.ParseGuid | DataAccess/TextFileBasedStore.cs:161-164 | `Guid.Parse` fails only with FormatException, and succeeds only on 32 to 38 characters after trimming |
| DotNetText.GuidRoundTrip | DataAccess/TextFileBasedStore.cs:161-164 | `Guid.Parse` of the text `ToString` writes for a Guid returns that Guid |
| DotNetText.GuidToStringInjective | DataAccess/TextFileBasedStore.cs:46 | two Guids with the same text are the same Guid |
| Codec.Encode | DataAccess/TextFileBasedStore.cs:113-127 | the content of a non-empty record ends in a tab and is at least one character per property |
| Codec.GetFileContent | DataAccess/TextFileBasedStore.cs:113-127 | the StringBuilder loop produces exactly `Encode(item)`: each property's text or `NULL`, each followed by one tab |
| Codec.EncodeCons | DataAccess/TextFileBasedStore.cs:119-124 | read from the front, the content is the first property's text, a tab, then the content of the remaining properties |
| Codec.EncodeTabCount | DataAccess/TextFileBasedStore.cs:123 | when no value text holds a tab, the content holds exactly one tab per property |
| Codec.Parse | DataAccess/TextFileBasedStore.cs:154-172 | a successful conversion yields a value of the property's declared kind |
| Codec.ParseFailures | DataAccess/TextFileBasedStore.cs:154-172 | an unsupported property type always raises NotSupportedException with the type's name; a supported one fails only with FormatException or OverflowException |
| Codec.ParseFieldText | DataAccess/TextFileBasedStore.cs:154-169 | parsing the text of a string, Guid or int value by its own kind returns the value |
| Codec.DecodeField | DataAccess/TextFileBasedStore.cs:144-148 | `NULL` sets null, or zero for a value type; a successful parse fits the property's kind; NotSupportedException comes only from an unsupported kind |
| Codec.Decode | DataAccess/TextFileBasedStore.cs:129-152 | a piece count different from the property count gives InvalidOperationException; a decoded record fits the schema; NotSupportedException names a type in the schema |
| Codec.DecodeFieldsNoInvalidOperation | DataAccess/TextFileBasedStore.cs:142-149 | converting the pieces one by one never raises InvalidOperationException |
| Codec.InvalidOperationMeansCountMismatch | DataAccess/TextFileBasedStore.cs:131-149 | reading raises InvalidOperationException exactly when the piece count differs from the property count |
| Codec.ReadFileContent | DataAccess/TextFileBasedStore.cs:129-152 | the loop over the properties returns exactly `Decode(kinds, content)`, including which exception is raised first |
| Codec.SplitStorable | DataAccess/TextFileBasedStore.cs:123-131 | when every text is non-empty and tab-free, splitting the content returns the property texts one-to-one |
| Codec.DecodeEncode | DataAccess/TextFileBasedStore.cs:113-152 | a storable record (supported kinds, no empty or tab-holding string) decodes to itself, except that string values "NULL" become null |
| Codec.RoundTrip | DataAccess/TextFileBasedStore.cs:113-152 | a storable record with no string value "NULL" decodes back to itself |
| Codec.NullStringReadsBackNull | DataAccess/TextFileBasedStore.cs:123-146 | a genuine string value "NULL" reads back as null |
| Codec.EmptyTextBreaksDecode | DataAccess/TextFileBasedStore.cs:123-139 | a property whose text is empty is dropped by the split, so reading raises InvalidOperationException |
| Store.GetFileLocation | DataAccess/TextFileBasedStore.cs:174-177 | the file of a record is the text of its Id followed by `.usr`, so it is at least as long as the extension; `RecordFileName` shows every such name is listed as a record file, `LocationOfGuidId` that it is GetByIdAsync's file for a Guid Id, and `IdLocationInjective` that distinct Guid Ids give distinct files |
| Store.IdLocation | DataAccess/TextFileBasedStore.cs:46 | the file GetByIdAsync opens is the 36-character Guid text followed by `.usr`; `LocationOfGuidId` ties it to GetFileLocation and `IdLocationInjective` makes it one file per Guid |
| Store.LocationOfGuidId | DataAccess/TextFileBasedStore.cs:174-177 | a record whose Id is Guid `id` is stored in the file GetByIdAsync(id) opens |
| Store.IdLocationInjective | DataAccess/TextFileBasedStore.cs:42-46 | different Guid keys use different files |
| Store.Overlay | DataAccess/TextFileBasedStore.cs:105-110 | writing without truncation leaves the new text at offset 0 and the old bytes beyond its end |
| Store.OverlayReplacesShorter | DataAccess/TextFileBasedStore.cs:105-110 | writing over content no longer than the new text replaces it |
| Store.ReadAll | DataAccess/TextFileBasedStore.cs:70-89 | the enumeration succeeds iff every `.usr` file decodes; a failure carries the exception of one such file; on success it returns one record per file, in an order that lists each file once |
| Store.ListingCount | DataAccess/TextFileBasedStore.cs:70-89 | a successful listing has exactly as many records as there are `.usr` files |
| Store.TextFileBasedStore.constructor | DataAccess/TextFileBasedStore.cs:12 | the store starts over the directory as it is; a missing directory holds no files |
| Store.TextFileBasedStore.EnsureDirectoryPresent | DataAccess/TextFileBasedStore.cs:179-185 | afterwards the directory exists and its files are unchanged |
| Store.TextFileBasedStore.Create | DataAccess/TextFileBasedStore.cs:14-26 | `<Id>.usr` holds the record's encoding, replacing any earlier file; no other file changes |
| Store.TextFileBasedStore.Delete | DataAccess/TextFileBasedStore.cs:28-40 | `<Id>.usr` is gone and no other file changes; deleting a missing file changes nothing |
| Store.TextFileBasedStore.GetById | DataAccess/TextFileBasedStore.cs:42-64 | null iff `<id>.usr` is missing; otherwise the decoded record or the exception decoding raises; files unchanged |
| Store.TextFileBasedStore.GetAll | DataAccess/TextFileBasedStore.cs:66-90 | as ReadAll over the directory, which it leaves unchanged |
| Store.TextFileBasedStore.Update | DataAccess/TextFileBasedStore.cs:92-111 | a missing file gets the encoding; an existing file gets the encoding laid over its old content without truncation; no other file changes |
| Store.TextFileBasedStore.UpdateTruncating | DataAccess/TextFileBasedStore.cs:92-111 | corrected update: the file holds exactly the new encoding |
| Store.ShrinkingUpdateIsUnreadable | DataAccess/TextFileBasedStore.cs:105-110 | when an update shortens a storable record's encoding by two or more characters, the file no longer decodes (InvalidOperationException) |
| Store.UpdateShorterByOneReadsBack | DataAccess/TextFileBasedStore.cs:105-110 | when the new encoding is at most one character shorter than the old, the overlaid file still decodes to the new record: the one surviving old character is its final tab, which the split drops |
| Store.CreateAllRecordFiles | DataAccess/TextFileBasedStore.cs:14-26 | after a series of creates, the `.usr` files are the earlier ones plus one per created record's location, and no others |
| Store.LocationsMembers | DataAccess/TextFileBasedStore.cs:14-26 | a file name is among the created records' locations iff some created record is stored under it |
| Store.LocationsCount | DataAccess/TextFileBasedStore.cs:14-26 | records with pairwise distinct locations occupy exactly as many files as there are records |
| Store.CreateAllContents | DataAccess/TextFileBasedStore.cs:14-26 | after a series of creates at distinct locations, each created record's file holds exactly that record's encoding |
| Users.ToRecord | Core/User.cs:7-15 | a User's properties fit the User schema, with the Id at position 0, and convert back to the same User |
| Users.RecordOfUser | Core/User.cs:7-15 | every record that fits the User schema is the record of some User |
| Users.UserRoundTrip | DataAccess/TextFileBasedStore.cs:113-152 | a User whose strings are null or non-empty, tab-free and not "NULL" reads back from its file unchanged |
| Users.UserLocation | DataAccess/TextFileBasedStore.cs:174-177 | a User is stored in the file GetByIdAsync looks in for its Id |
| Users.CreateThenGetById | DataAccess/TextFileBasedStore.cs:14-64 | CreateAsync then GetByIdAsync with the same Id returns the User created |
| Users.CreateDeleteGetById | DataAccess/TextFileBasedStore.cs:28-64 | after CreateAsync and two DeleteAsync calls, GetByIdAsync returns null |
| Users.CreateUpdateGetById | DataAccess/TextFileBasedStore.cs:92-111 | after CreateAsync and UpdateAsync as written, GetByIdAsync returns the new User exactly when its encoding is at most one character shorter than the old one, and raises InvalidOperationException otherwise |
| Users.CreateUpdateTruncatingGetById | DataAccess/TextFileBasedStore.cs:92-111 | after the corrected update, GetByIdAsync always returns the new User |
| Users.CreatedUsersRecordFiles | DataAccess/TextFileBasedStore.cs:14-26 | after creating Users in a directory without `.usr` files, a file is a `.usr` file exactly when it is some User's `<Id>.usr` |
| Users.CreatedUsersAllListed | DataAccess/TextFileBasedStore.cs:14-26 | creating N storable Users with pairwise distinct Ids in a directory without `.usr` files leaves exactly N `.usr` files, which are exactly the Users' `<Id>.usr` files, and each reads back as its User |
| Users.ListingOfUsers | DataAccess/TextFileBasedStore.cs:66-90 | a listing of a directory whose `.usr` files are exactly the Users' files, each holding its User, has one record per User and holds exactly the Users' records |
| Users.CreateEach | DataAccess/TextFileBasedStore.cs:14-26 | CreateAsync for each User in turn leaves the directory the series of creates describes |
| Users.CreateAllThenGetAll | DataAccess/TextFileBasedStore.cs:14-90 | after CreateAsync for N storable Users with distinct Ids in a directory without `.usr` files, GetAllAsync succeeds with N records, which are exactly the Users created |
| Users.UserContent | DataAccess/TextFileBasedStore.cs:113-127 | a User's file is its Id's text, then UserName, NormalizedUserName, Email and PasswordHash (or `NULL`), each followed by a tab |
| Users.OnesGuidText | DataAccess/TextFileBasedStore.cs:176 | the Guid of all 1 nibbles is written `11111111-1111-1111-1111-111111111111` |
| Users.AliceFile | DataAccess/TextFileBasedStore.cs:14-26 | the sample user (alice, ALICE, alice@example.com, h4sh) is stored under its Id, splits into five pieces and reads back unchanged |
| Users.AliceContent | DataAccess/TextFileBasedStore.cs:113-127 | the sample user's file is its Id's text, then `alice`, `ALICE`, `alice@example.com` and `h4sh`, each followed by a tab |
| Users.AliceRenamedIsUnreadable | DataAccess/TextFileBasedStore.cs:105-110 | renaming the sample user to "al"/"AL" with UpdateAsync as written leaves a file that raises InvalidOperationException |

## Left out

- Asynchrony (`Task`, `await`), streams and file handles are not modelled. Each call is one atomic step on the directory map, and concurrent callers are not modelled.
- The short read: `ReadAsync` may return fewer bytes than requested, and the code ignores the count. The model reads the whole file.
- UTF-8 encoding and decoding are not modelled. A character stands for a byte, so the model covers ASCII content only.
- Reflection: `GetProperties` order and property types are given by the schema. Declaration order is assumed. A missing parameterless constructor (`Activator.CreateInstance`) and a property without a setter are not modelled.
- Store.GetFileLocation: a record type without an `Id` property is not modelled. There the runtime binder throws; every schema names an Id position.
- `Path.Combine` with the `DataStore` folder under the application base directory, and the `Lazy` path, are not modelled. Files are named relative to the directory.
- The order of `Directory.EnumerateFiles` is unspecified. GetAll returns it as a ghost `order` and promises only that each `.usr` file appears once.
- The `*.usr` pattern matches a name exactly when it ends in `.usr`. Windows quirks (case-insensitive matching, 8.3 short names) are not modelled.
- File-system failures are not modelled: IOException, permissions, and a directory deleted under the store.
- DotNetText.ParseGuid: the "X" form (`{0x…,…}`) is not accepted, and white space is ASCII white space only. In the hyphenated forms, .NET also accepts a group that starts with `+`, `0x` or `0X` within the group's width; the model rejects such groups with FormatException. `Guid.ToString` never writes them, so the round trip is unaffected.
- DotNetText.ParseInt32: culture-specific signs and Unicode white space are not modelled; the invariant culture with ASCII is assumed. .NET also accepts trailing NUL characters (`"5\0"` parses as 5), where the model raises FormatException. `int.ToString` never writes them, so the round trip is unaffected.
- Properties of unsupported types are treated as reference types: `NULL` reads back as null for them.
- `DataAccess/IDataContext.cs` only declares the five operations. Those operations are modelled as the class's methods.

## Findings

| source | as written | input that shows it | evidently intended | confidence | as-written member | corrected member |
|---|---|---|---|---|---|---|
| DataAccess/TextFileBasedStore.cs:105-110 | UpdateAsync writes through `File.OpenWrite`, which does not truncate, so a shorter new encoding leaves the end of the old content in the file, and reading it raises InvalidOperationException (too many pieces) | the sample user (Id 11111111-1111-1111-1111-111111111111, alice, ALICE, alice@example.com, h4sh) created, then updated with UserName "al" and NormalizedUserName "AL" | the file holds exactly the new encoding (a truncating write, such as `File.Create`) | high; not executed | Store.TextFileBasedStore.Update, Users.AliceRenamedIsUnreadable | Store.TextFileBasedStore.UpdateTruncating, Users.CreateUpdateTruncatingGetById |
