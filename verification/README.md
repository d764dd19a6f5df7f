# Shipment status-change detector, modelled in Dafny

`check_and_notify_on_change` (app.py) receives the previous and the current
snapshot of a shipment table. It does four things:

1. It cleans both tables. `Destino`, `Producto` and `Estado de atención` are stripped and upper-cased, and `Fecha` is folded to a `YYYY-MM-DD` string.
2. It inner-joins old and new rows on `(Destino, Fecha, Producto)`.
3. It keeps the joined pairs whose status changed. Of these it keeps only the last pair per key.
4. It sends one push message per remaining change. The message goes to the short id of the destination (the part before the first `-`). Its title names the destination and its body names both statuses.

The model has four modules, one per stage:

- `Text` (text.dfy): Python's `str.strip()` and `str.upper()` on one cell.
- `Snapshot` (snapshot.dfy): rows, tables and `clean_dataframe` (`CleanTable`). A table records which of the four columns it has. A column the table lacks is left alone, as the `if col in df_cleaned.columns` guards do.
- `ChangeDetection` (changes.dfy): the keyed inner join (`Join`), the status filter (`StatusChanged`), the keep-last deduplication (`KeepLast`) and the whole detection (`DetectChanges`).
  - If either table lacks one of the four columns, pandas raises at the merge or at the status comparison. The function catches that and only reports it. The model returns `MissingColumns` and nothing is sent.
- `Notify` (notify.dfy): short-id derivation, title and body, and the class `Notifier`.
  - `Notifier` owns `outbox`, the sequence of `(shortId, title, body)` triples handed to the push transport so far.
  - `CheckAndNotifyOnChange` runs the detection and then `NotifyEach`, the imperative loop of the source, which appends one triple per change.

Tables are values, so the caller's tables can never be changed by the
detector. This is what `df.copy()` guarantees in the source.

The join follows the order of the left (old) rows: each old row is followed by
its matching new rows, in the new table's order. This is the order the pandas
merge documentation promises for inner merges; from version 2.2 on the
implementation keeps it.

Three facts about the code shape what is modelled:

- A key present in only one table produces no change event. The join is inner, so a first-seen record is never reported.
- No state is kept between runs: the two tables are the only input, and nothing is stored, retained or merged afterwards.
- Looking up who is subscribed to a short id happens inside the external send function, not in `check_and_notify_on_change`.

## Model

| member | source | states |
|---|---|---|
| Text.Strip | app.py:10 | the stripped text has no whitespace (Python's `str.isspace` set) at either end and is never longer than the input |
| Text.StripSlice | app.py:10 | the stripped text is a slice of the input with only whitespace cut off before and after it |
| Text.StripUnique | app.py:10 | stripping is uniquely determined: any slice with only whitespace around it and none at its ends is what `Strip` returns |
| Text.StripStripped | app.py:10 | stripping a string with no whitespace at either end returns it unchanged |
| Text.UpperChar | app.py:10 | each lower-case letter goes to its own capital (`a`–`z` and `à`–`þ` without `÷` down by 32, `ÿ` to `Ÿ`, `µ` to `Μ`), every other character is kept, whitespace stays whitespace, and no lower-case letter remains |
| Text.UpperCharSame | app.py:10 | two characters upper-case alike exactly when they are equal or one is the lower-case form of the other |
| Text.Upper | app.py:10 | upper-casing maps every character to its own upper-case form (`UpperChar`), keeps the length, changes exactly the lower-case letters, leaves none behind and keeps whitespace where it was |
| Text.CleanText | app.py:10 | a cleaned cell has no whitespace at either end and consists only of characters that upper-casing leaves alone |
| Text.CleanTextKeepsMiddle | app.py:10 | a cleaned cell is the upper-cased input with only whitespace removed from both ends |
| Text.CleanTextSame | app.py:10 | two cells clean to the same text exactly when their stripped texts have equal length and agree at every position up to case |
| Text.CleanTextIdempotent | app.py:8-10 | cleaning an already cleaned cell changes nothing |
| Snapshot.CleanTable | app.py:6-15 | the cleaned copy keeps the columns, the row count and the row order; in each row exactly the present `Destino`, `Producto` and `Estado` cells are cleaned and the present `Fecha` is folded, every other column is unchanged |
| Snapshot.CleanTableIdempotent | app.py:6-15 | cleaning a cleaned table again changes nothing, given a date folding that is idempotent |
| ChangeDetection.MatchesOf | app.py:28-34 | the pairs one old row contributes to the join are exactly that row with each new row of the same key |
| ChangeDetection.MatchesOfConcat | app.py:28-34 | one old row's matches follow the new table's order: those among two runs of new rows are the first run's followed by the second's |
| ChangeDetection.Join | app.py:25-34 | a pair is in the inner join exactly when it couples an old row and a new row with equal `(Destino, Fecha, Producto)` |
| ChangeDetection.JoinConcat | app.py:28-34 | the join follows the old table's order: the merged rows of two runs of old rows are the first run's followed by the second's |
| ChangeDetection.StatusChanged | app.py:37 | a merged pair survives the filter exactly when its old and new status differ |
| ChangeDetection.StatusChangedConcat | app.py:37 | the filter keeps order and multiplicity: it filters two runs of merged rows independently and concatenates the results |
| ChangeDetection.Candidates | app.py:28-37 | a pair is a candidate exactly when it couples a cleaned old row and a cleaned new row with equal key and different status |
| ChangeDetection.UnchangedFiltersToNothing | app.py:37 | a merged table in which no status differs leaves nothing after the filter |
| ChangeDetection.KeepLast | app.py:40 | deduplication never lengthens the sequence and keeps only pairs that were there |
| ChangeDetection.LastPositions | app.py:40 | the positions listed are in range and strictly increasing |
| ChangeDetection.LastPositionsAre | app.py:40 | a position is listed exactly when no later pair has the key of the pair there |
| ChangeDetection.KeepLastAtPositions | app.py:40 | the survivors are exactly the pairs at the last position of their key, in the order of those positions |
| ChangeDetection.KeepLastKeys | app.py:40 | deduplication keeps every key that occurs: the key sets before and after are equal |
| ChangeDetection.KeepLastUnique | app.py:40 | after deduplication no two pairs share a key |
| ChangeDetection.KeepLastIsLast | app.py:40 | a pair survives deduplication exactly when, at some position, no later pair has its key (`keep='last'`) |
| ChangeDetection.KeepLastSubsequence | app.py:40 | the survivors keep their original relative order |
| ChangeDetection.DetectChanges | app.py:25-40 | the detection fails exactly when one of the four columns is missing from either table, and then names only required columns |
| ChangeDetection.DetectChangesSound | app.py:25-40 | every reported change couples a cleaned old row and a cleaned new row with equal key and different status; no key is reported twice |
| ChangeDetection.DetectChangesComplete | app.py:28-40 | every old/new row pair with equal key and different status has its key reported |
| ChangeDetection.DetectChangesKeepsLast | app.py:37-40 | the change reported for a key is the last status-changing pair of that key in join order |
| ChangeDetection.NewRecordsNotReported | app.py:28-34 | a new row whose key no old row has is never reported |
| ChangeDetection.NoChangesAgainstItself | app.py:28-40 | comparing a table whose cleaned keys are unique with itself reports no change |
| Notify.BeforeFirstDash | app.py:55 | the first piece of `split('-')` is a prefix of the input without a dash, followed by a dash or the end |
| Notify.ShortId | app.py:55 | the short id contains no dash and has no whitespace at either end |
| Notify.ShortIdWithoutDash | app.py:55 | a destination without a dash yields itself stripped, and a cleaned one yields itself |
| Notify.ShortIdWithDash | app.py:55 | a destination `code-rest` whose code has no dash yields the stripped code |
| Notify.TitleRoundTrip | app.py:57 | the destination can be read back from the title `Title` builds, `"Actualización en Destino: " + destino` |
| Notify.BodyDeterminesStatuses | app.py:58 | the body `Body` builds, `"Estado cambió de '…' a '…'"`, determines both statuses it names when the old status has no quote |
| Notify.NotificationsFor | app.py:50-60 | there is one message per change |
| Notify.NotificationsForPrefix | app.py:50-60 | the messages for one more change are those for the changes before it followed by that change's message |
| Notify.NotificationsForAt | app.py:50-60 | entry i of the message list is the message built from change i |
| Notify.NotificationsMatchChanges | app.py:50-60 | message i (`NotificationFor` of change i) goes to the short id of change i's destination, its title names that destination and its body both statuses of change i |
| Notify.Dispatched | app.py:43-62 | nothing is sent when a column is missing, otherwise one message per deduplicated change |
| Notify.OneNotificationPerChange | app.py:43-62 | as many messages as deduplicated changes, each about a real status change, no two about the same key, and nothing sent exactly when no change was found or a column is missing |
| Notify.NothingSentForUnchangedTable | app.py:28-62 | a table with unique cleaned keys compared with itself sends no message |
| Notify.Notifier.Send | app.py:60 | handing a message to the transport appends exactly that triple to the outbox |
| Notify.Notifier.Compose | app.py:51-58 | one iteration's short id, title and body are the message `NotificationFor` gives for that change |
| Notify.Notifier.NotifyEach | app.py:50-60 | the loop appends exactly the messages for the given changes to the outbox, in order |
| Notify.Notifier.CheckAndNotifyOnChange | app.py:1-65 | the outbox grows by exactly the messages for the detected changes, in order, and by nothing when a column is missing |

## Left out

- Streamlit output (`st.warning`, `st.info`, `st.header`, `st.dataframe`, `st.error`): it is display only and has no effect on what is sent.
- The internals of `enviar_notificacion_por_destino` are not part of this model. That includes the subscription lookup and the push transport. The call is modelled as appending to `outbox`. A send that raised would stop the rest of the loop in the source; the model's sends always succeed.
- Date folding (`pd.to_datetime(..., errors='coerce').dt.strftime('%Y-%m-%d')`) is the parameter `foldDate`. It is applied cell by cell.
  - Pandas infers a single format for the whole column, which a per-cell function does not capture.
  - An unparsable date becomes one shared value. Pandas merges those with each other.
- `astype(str)` of non-string cells and NaN handling: every cell is already a string in the model.
- Text.UpperChar: covers Basic Latin and the Latin-1 Supplement. It leaves `ß` alone, where Python gives `SS`. Every character above U+00FF is kept unchanged, where Python upper-cases letters in other scripts as well.
- Exceptions other than a missing column are not modelled. Examples are duplicate column names and a table that already has a column named `Estado de atención_old`. The catch-all handler only reports them.
- Merged-frame column suffixes: a merged pair keeps the full old row and the full new row.
- Before pandas 2.2, an inner merge grouped its output rows by key instead of following the left rows. The model follows the newer order.
