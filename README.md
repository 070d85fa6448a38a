# Asteroid tracker statistics, modelled in Dafny

The asteroid tracker asks a near-Earth-object feed for the objects detected
between two dates and reduces the answer to four figures: the number of
asteroids, the number of potentially hazardous ones, the largest estimated
diameter in metres and the nearest miss distance in kilometres. The result
echoes the start and end dates beside them. When the feed
answers with a status other than 200, it copies the remote error descriptor
(code, type, message) instead.

This project models that reduction, `calculate_statistics`, in the single
module `AsteroidTracker` (`asteroid_tracker.dfy`):

- The HTTP status and the already-parsed body are inputs. The body is either a
  `Feed` (the declared `element_count` and the record lists of the
  `near_earth_objects` mapping, in key order) or an `ErrorBody` (`code`,
  `http_error`, `error_message`).
- A record (`NeoRecord`) holds the hazard flag, the maximum estimated diameter
  in metres and the miss distance in kilometres of each close-approach entry;
  the walk reads only the first one.
- The result is a `Result<Outcome>`: `Ok` of either `Statistics` or
  `HttpError` (the two result shapes), or `Raised` with the exception the
  Python code lets escape: `KeyError` when the body does not have the shape
  the status leads the code to expect, `IndexError` when a record has no
  close-approach entry, and `ValueError` when `max`/`min` see an empty list
  because no record was walked.
- `Walk` is the nested loop over date groups and their records: it counts
  hazardous records and appends one diameter and one first miss distance per
  record. `CalculateStatistics` runs the branch on the status, calls `Walk`
  and reduces the two lists with `Largest` and `Smallest` (Python's `max` and
  `min`). It is proved equal to the specification function `StatisticsOf`;
  the lemmas state what the source promises about that function.

On an empty feed the code makes no special decision: `max([])` raises
`ValueError`, and the model follows it with `Raised(ValueError)`
(`EmptyFeedRaisesValueError`).

## Model

| member | source | states |
|---|---|---|
| `AsteroidTracker.Walk` | src/asteroid_tracker/asteroid_tracker.py:65-74 | The walk raises exactly when some record has no close-approach entry; otherwise the count is the number of hazardous records and both lists have one entry per walked record, in walk order: the record's maximum diameter and its first miss distance. |
| `AsteroidTracker.CalculateStatistics` | src/asteroid_tracker/asteroid_tracker.py:54-95 | The result, or the exception raised, is the one `StatisticsOf` gives for the status and body. |
| `AsteroidTracker.Largest` | src/asteroid_tracker/asteroid_tracker.py:76 | The maximum of a non-empty list is one of its elements and no element exceeds it. |
| `AsteroidTracker.Smallest` | src/asteroid_tracker/asteroid_tracker.py:77 | The minimum of a non-empty list is one of its elements and no element is below it. |
| `AsteroidTracker.DiametersAt` | src/asteroid_tracker/asteroid_tracker.py:73 | The diameter list has one entry per record, and entry k is record k's maximum estimated diameter. |
| `AsteroidTracker.FirstMissesAt` | src/asteroid_tracker/asteroid_tracker.py:74 | The miss list has one entry per record, and entry k is the first close-approach distance of record k. |
| `AsteroidTracker.AllHaveMembers` | src/asteroid_tracker/asteroid_tracker.py:74 | Reading the first close-approach entry succeeds for all records exactly when every record has one. |
| `AsteroidTracker.MissingCloseApproach` | src/asteroid_tracker/asteroid_tracker.py:67-74 | A single record without close-approach data, in any date group, makes the walk fail. |
| `AsteroidTracker.WalkStep` | src/asteroid_tracker/asteroid_tracker.py:70-74 | Walking one more record adds 1 to the count exactly when it is hazardous and appends its diameter and first miss distance at the end of the lists. |
| `AsteroidTracker.FlattenMembers` | src/asteroid_tracker/asteroid_tracker.py:65-69 | A record is walked exactly when it belongs to some date group. |
| `AsteroidTracker.FlattenEmpty` | src/asteroid_tracker/asteroid_tracker.py:65-69 | Nothing is walked exactly when every date group is empty. |
| `AsteroidTracker.FlattenStep` | src/asteroid_tracker/asteroid_tracker.py:67-69 | After the records of one more date group are walked, the walked records are the earlier ones followed by that group's records in order. |
| `AsteroidTracker.FlattenLength` | src/asteroid_tracker/asteroid_tracker.py:67-69 | Every record of every date group is walked exactly once: the number walked is the sum of the group sizes. |
| `AsteroidTracker.HazardousCountPerGroup` | src/asteroid_tracker/asteroid_tracker.py:67-71 | The hazardous count over the walk is the sum of the hazardous counts of the date groups. |
| `AsteroidTracker.HazardousCountBounded` | src/asteroid_tracker/asteroid_tracker.py:67-71 | The hazardous count never exceeds the number of records walked. |
| `AsteroidTracker.HazardousCountIsPositions` | src/asteroid_tracker/asteroid_tracker.py:67-71 | The hazardous count equals the number of positions holding a record whose hazard flag is set. |
| `AsteroidTracker.HazardousCountAppend` | src/asteroid_tracker/asteroid_tracker.py:67-71 | Counting over two consecutive stretches of records adds the two counts. |
| `AsteroidTracker.HazardousCountPermutation` | src/asteroid_tracker/asteroid_tracker.py:67-71 | Any reordering of the walked records gives the same hazardous count. |
| `AsteroidTracker.LargestOfSameMembers` | src/asteroid_tracker/asteroid_tracker.py:76 | The maximum depends only on which values the list holds, not on their order or repetition. |
| `AsteroidTracker.SmallestOfSameMembers` | src/asteroid_tracker/asteroid_tracker.py:77 | The minimum depends only on which values the list holds, not on their order or repetition. |
| `AsteroidTracker.DiametersMembers` | src/asteroid_tracker/asteroid_tracker.py:73 | A value is in the diameter list exactly when some walked record has it as its maximum diameter. |
| `AsteroidTracker.FirstMissesMembers` | src/asteroid_tracker/asteroid_tracker.py:74 | A value is in the miss list exactly when some walked record has it as its first miss distance. |
| `AsteroidTracker.WalkSucceedsExactly` | src/asteroid_tracker/asteroid_tracker.py:67-77 | The success condition of a 200 feed, stated on the date groups (every record of every group has a close-approach entry, some group is not empty), is exactly the condition checked on the walked records. |
| `AsteroidTracker.SuccessEchoesRequest` | src/asteroid_tracker/asteroid_tracker.py:58-82 | On success the start date, end date and declared `element_count` are returned unchanged, whatever the records say. |
| `AsteroidTracker.HazardousCountIsExact` | src/asteroid_tracker/asteroid_tracker.py:67-83 | On success the hazardous count is exactly the number of walked records with the flag set, equals the sum of the per-group hazardous counts, and is at most the number of records walked, which is the sum of the group sizes. |
| `AsteroidTracker.LargestDiameterIsMaximum` | src/asteroid_tracker/asteroid_tracker.py:73-84 | On success the largest diameter is at least every record's maximum diameter in every date group, and equals one of them. |
| `AsteroidTracker.NearestMissIsMinimum` | src/asteroid_tracker/asteroid_tracker.py:74-85 | On success the nearest miss is at most every record's first miss distance in every date group, and equals one of them. |
| `AsteroidTracker.ErrorBranchCopiesFields` | src/asteroid_tracker/asteroid_tracker.py:88-95 | A status other than 200 with an error body gives the error shape with `code`, `http_error` and `error_message` copied verbatim; with a feed body the `code` lookup raises `KeyError`. |
| `AsteroidTracker.EmptyFeedRaisesValueError` | src/asteroid_tracker/asteroid_tracker.py:76-77 | A 200 feed ends in `max`/`min` of an empty list exactly when every date group is empty. |
| `AsteroidTracker.GroupingIsIrrelevant` | src/asteroid_tracker/asteroid_tracker.py:65-77 | For the same status, dates and `element_count`, two feeds whose date groups hold the same records, in any grouping and any order, give the same outcome. |
| `AsteroidTracker.TwoDateScenario` | src/asteroid_tracker/asteroid_tracker.py:58-86 | Two dates with one record each (120.5 m, 500000.2 km, not hazardous; 340.0 m, 120000.9 km, hazardous) give one hazardous object, 340.0 m and 120000.9 km, with the declared count echoed. |
| `AsteroidTracker.TwoSingletonGroups` | src/asteroid_tracker/asteroid_tracker.py:67-74 | Two date groups holding one record each are walked as those two records: the count adds their flags and the lists hold their diameters and first miss distances in order. |

## Left out

- The HTTP request, its headers and the JSON decoding of the response (lines 47-52) are network I/O and a foreign library: the status code and the parsed body are inputs. A body that is not JSON, and transport failures, are not modelled.
- The URL formatting with the request template (lines 19 and 48) only builds the transport string.
- The `float` conversion of the miss-distance string (line 74) is a library call: miss distances are already numbers in the model.
- Floating point: diameters and distances are `real`, so NaN, infinities and rounding are not captured; the code only compares them.
- Access to keys inside a record (`is_potentially_hazardous_asteroid`, the nested diameter keys, `miss_distance.kilometers`) and JSON values of unexpected types are not modelled: the record type always has these fields, the hazard flag is a `bool`, `element_count` and `code` are integers. Only the top-level shape mismatch (`KeyError`) and the empty close-approach list (`IndexError`) are modelled as failures of the parsed data.
- `main` with its two `input` prompts (lines 22-37), the progress message (line 50), `print_statistics` and the logging setup (lines 9-16 and 98-119) are console I/O and formatting.
- The `-1` initial values of the two extremes (lines 62-63) are overwritten before the result is built; on every exception path the result is never built, so they have no observable effect.
