# ElasticSync core in Dafny

ElasticSync is a WordPress plugin that mirrors posts into Elasticsearch. This
project models the four parts of it that compute something and proves
properties of them:

- **Index and alias naming** (`indices.dfy`, module `Indices`). It derives an
  index or alias name from a site URL: the scheme and `www.` are deleted, then
  every non-word character, then `-<blog id>` or `-global` is appended. It
  also parses the site id back out of an index name.
- **Document preparation** (`prepare.dfy`, module `Prepare`). This covers:
  - the early bail of `prepare`;
  - the text sanitiser, which collapses line-break runs;
  - the author sub-document;
  - the date-partition fields;
  - the meta-key selection loop;
  - the typed projection of a meta value;
  - the meta-types loop.
- **The request wrapper** (`request.dfy`, module `Request`). The retry loop of
  `remote_request` is a method with a `while` loop. It is proved equal to the
  recursive function `Run`, which in turn carries the attempt-count, success
  and host properties. `format_request_headers` builds the Shield
  `Authorization` header.
- **The autoloader** (`autoloader.dfy`, module `Autoloader`). It maps a
  namespaced class name to a file path, or to none. The source's reverse loop
  is a method proved equal to the function `ClassPath`.

Three supporting modules define what those parts rely on:

- `php.dfy` (module `Php`) holds the PHP semantics the code depends on:
  - values and array keys, with arrays as ordered key/value lists;
  - `empty()`;
  - the `(int)` cast and `intval`: a run of digits is read exactly within 64 bits and saturated beyond. A run whose value reaches 2^1024 - 2^970 overflows the double PHP reads it into, and the cast then gives 0;
  - PHP 8's numeric-string grammar for `is_numeric`;
  - `FILTER_VALIDATE_BOOLEAN`;
  - array read and assignment;
  - strict `in_array`;
  - ASCII `strtolower`;
  - `trailingslashit`.
- `base64.dfy` (module `Base64`) is the Base64 encoding of section 4 of
  RFC 4648, together with a decoder and the round trip.
- `calendar.dfy` (module `Calendar`) is the proleptic Gregorian breakdown of a
  timestamp into the fields `date()` prints. It includes the ISO-8601 week and
  weekday.

WordPress calls, PHP library calls whose source is not part of the plugin, and
every `apply_filters` hook are parameters. They are record fields of closures
(`Prepare.Runtime`, `Prepare.MetaFilters`, `Request.Env`) or function
arguments. `wp_remote_request` is an oracle indexed by the attempt number.

Three places where the code does not do what it evidently means are modelled
as written. Beside each, a corrected definition carries the intended property
(see "## Findings").

Two behaviours of the code are worth noting. A non-blocking call still runs
the whole retry loop, and only the completion time stays unset. The query
record says `blocking` is true in both branches. As written, both branches
then call the undefined method `_add_query_log`, which is fatal (see
"## Left out"); the model treats that call as doing nothing.

## Model

| member | source | states |
|---|---|---|
| Php.EmptyStringCases | includes/elasticsearch/class-indices.php:63 | `empty()` holds for a string exactly when it is "" or "0" |
| Php.IntCastDigits | includes/elasticsearch/class-indices.php:44 | `(int)` of a digit string, alone or followed by one newline, is its decimal value saturated to the 64-bit range, or 0 once the value overflows a double (2^1024 - 2^970 and above) |
| Php.IntCastNoNumber | includes/elasticsearch/class-indices.php:44 | a string that, after whitespace and sign, starts neither with a digit nor with '.' and a digit casts to 0 |
| Php.IntCastInRange | includes/sync/class-prepare.php:170-179 | a digit string whose value fits in 64 bits casts to exactly that value |
| Php.IntCastNegativeDigits | includes/sync/class-prepare.php:170 | '-' followed by digits casts to the negated value saturated to the 64-bit range, or 0 once the value overflows a double |
| Php.IntCastPositive | includes/sync/class-prepare.php:295 | `intval` of a digit string of positive value is positive exactly when the value does not overflow a double |
| Php.DigitsAreNumeric | includes/sync/class-prepare.php:294 | `is_numeric` holds for every non-empty digit string |
| Php.TrueSpellings | includes/sync/class-prepare.php:291 | `FILTER_VALIDATE_BOOLEAN` accepts "YES", " On\n" and "1" and rejects "no", "2" and "" |
| Php.Store | includes/sync/class-prepare.php:253 | array assignment: the key reads back the new value, every other key reads as before, an existing key keeps the length, a new key is appended at the end |
| Php.StoreTwice | includes/sync/class-prepare.php:268 | assigning one key twice leaves the same array as assigning only the second value |
| Php.StoreDistinct | includes/sync/class-prepare.php:253 | assignment keeps the keys of an array distinct |
| Php.LookupSnoc | includes/sync/class-prepare.php:253 | reading an array with one entry appended: an existing key wins, otherwise the new entry |
| Php.Untrailingslashit | includes/elasticsearch/class-request.php:69 | the result is a prefix of the input with no trailing '/' or '\\', and only such characters were removed |
| Php.TrailingslashitKeeps | includes/class-autoloader.php:48 | a string ending in exactly one '/', whose character before that '/' is not '\\' either, is unchanged by `trailingslashit` |
| Indices.KeepWordChars | includes/elasticsearch/class-indices.php:94 | after the second rewrite only ASCII word characters `[A-Za-z0-9_]` remain |
| Indices.KeepWordCharsOfWords | includes/elasticsearch/class-indices.php:94 | text made of word characters only is left unchanged |
| Indices.KeepWordCharsAppend | includes/elasticsearch/class-indices.php:94 | the deletion works character by character: it distributes over concatenation |
| Indices.SchemeRemovedAnywhere | includes/elasticsearch/class-indices.php:93 | StripScheme: `http://` or `https://` in any letter case, anywhere in the URL, is deleted together with a `www.` right after it |
| Indices.StripSchemeIgnoresCase | includes/elasticsearch/class-indices.php:93 | StripScheme: the match is case-insensitive: lowercasing before or after the rewrite gives the same text |
| Indices.StripSchemeWithoutColon | includes/elasticsearch/class-indices.php:93 | StripScheme: text without ':' is left unchanged by the first rewrite |
| Indices.IndexOrAliasFromUrl | includes/elasticsearch/class-indices.php:92-96 | without a blog id the name has only word characters; with one it is word characters, then '-', then the id in decimal |
| Indices.IndexOrAliasIdempotent | includes/elasticsearch/class-indices.php:93-94 | applied without a blog id to its own output, the function returns that output unchanged |
| Indices.IndexNameExample | includes/elasticsearch/class-indices.php:93-96 | `https://www.example.com/` with blog id 5 gives `examplecom-5` |
| Indices.IndexNameUnfiltered | includes/elasticsearch/class-indices.php:53-66 | GetIndexName: with the identity filter, get_index_name uses the current blog when given no id, returns false exactly when the site URL is empty, and otherwise returns the URL's base name |
| Indices.AliasNameUnfiltered | includes/elasticsearch/class-indices.php:73-83 | GetAliasName: with the identity filter, get_alias_name returns false exactly when the network URL is empty, and otherwise returns the base name followed by `-global` |
| Indices.AliasNameExample | includes/elasticsearch/class-indices.php:73-83 | with identity filters, `http://network.test` gives `networktest-global` |
| Indices.SiteIdRoundTrip | includes/elasticsearch/class-indices.php:44 | ParseSiteId: parse_site_id of the index name for any URL and blog id n in the 64-bit range is n again |
| Indices.SiteIdOfSuffix | includes/elasticsearch/class-indices.php:44 | ParseSiteId: text without a newline, then '-', digits and possibly one final newline, parses to the digits' value saturated to 64 bits, or 0 once the value overflows a double |
| Indices.SiteIdWithoutSuffix | includes/elasticsearch/class-indices.php:44 | ParseSiteId: a name the pattern does not match at any '-' (no newline before it, digits and at most one final newline after it) is cast as a whole |
| Indices.SiteIdExampleNoSuffix | includes/elasticsearch/class-indices.php:44 | `examplecom` parses to 0 |
| Prepare.PrepareBailCases | includes/sync/class-prepare.php:36-43 | prepare bails for a null post and for a post without an ID; a post whose ID is an integer bails exactly when the ID is 0 |
| Prepare.PrepareTextContent | includes/sync/class-prepare.php:112-125 | a non-string comes back unchanged; a string comes back as a string without '\n' or '\r' |
| Prepare.CollapseIdentity | includes/sync/class-prepare.php:122 | CollapseBreaks: text without line breaks is unchanged |
| Prepare.CollapseRun | includes/sync/class-prepare.php:122 | CollapseBreaks: a run of line breaks alone becomes exactly one space |
| Prepare.CollapseAppend | includes/sync/class-prepare.php:122 | CollapseBreaks: text split where no run of breaks is cut collapses piece by piece, so all other characters keep their order |
| Prepare.AuthorData.ToArray | includes/sync/class-prepare.php:138-151 | the author array has exactly the keys raw, login, display_name and id, in that order |
| Prepare.AuthorDataFor | includes/sync/class-prepare.php:133-151 | without a user of the tested class all four fields are ''; with one, raw and login are both the login, and display_name and id are the user's |
| Prepare.AuthorNeverFound | includes/sync/class-prepare.php:137 | as written, a `WP_User` from get_userdata always gets the empty author array |
| Prepare.AuthorFoundIntended | includes/sync/class-prepare.php:146-151 | with the global `WP_User` class tested, raw and login are the user's login |
| Prepare.DateTermsEmpty | includes/sync/class-prepare.php:161-166 | DateTerms: the date fields are absent exactly when strtotime gives false or 0, so the epoch itself gives none |
| Prepare.DateTermsFields | includes/sync/class-prepare.php:160-181 | DateTerms: for a nonzero timestamp, with t the valid local time mapping back to it plus the zone offset and a weekday counted from 1970-01-01: year is t's year (exact within 64 bits), month, day, hour, minute and second are t's, week is the ISO week counted from its Thursday, dayofweek_iso is dayofweek with 0 made 7, and m is 100 * year ± month |
| Prepare.LocalTime | includes/sync/class-prepare.php:170-180 | the local time is a valid calendar time whose weekday agrees with its date and whose timestamp is the input plus the zone offset |
| Prepare.YearFieldValue | includes/sync/class-prepare.php:170 | `year` is the calendar year read back as a decimal, exact within 64 bits |
| Prepare.DateFieldValues | includes/sync/class-prepare.php:171-174 | `month` and `day` are the calendar month and day |
| Prepare.WeekFieldValue | includes/sync/class-prepare.php:172 | `week` is the ISO-8601 week number, from 1 to 53; when the weekday agrees with the date it is 1 + (day of the year of the week's Thursday, in the year holding it) / 7 |
| Prepare.DayFieldValues | includes/sync/class-prepare.php:173-175 | `dayofyear` is the 0-based day of the year and `dayofweek` is 0 for Sunday to 6 |
| Prepare.IsoWeekdayField | includes/sync/class-prepare.php:175-176 | `dayofweek_iso` equals `dayofweek`, except that 0 becomes 7 |
| Prepare.TimeFieldValues | includes/sync/class-prepare.php:177-179 | `hour`, `minute` and `second` are those of the local time |
| Prepare.YearMonthField | includes/sync/class-prepare.php:180 | `m` is 100 * year + month, or 100 * year - month for a negative year (2 BC and earlier), whenever that fits in 64 bits |
| Prepare.PrepareMeta | includes/sync/class-prepare.php:190-257 | the loop over the stored meta returns the entries selected by `SelectMeta`, in order |
| Prepare.SelectMetaKeys | includes/sync/class-prepare.php:227-254 | SelectMeta: every output key is an input key |
| Prepare.SelectMetaLookup | includes/sync/class-prepare.php:227-254 | SelectMeta: for distinct keys, a key is kept exactly when the final allow decision is not strictly false, and its value is then the unserialized input value |
| Prepare.DefaultSelection | includes/sync/class-prepare.php:229-231 | with the identity filter, a protected key is kept when it is in the allow list and any other key when it is not in the deny list |
| Prepare.StrictMembership | includes/sync/class-prepare.php:230-231 | membership is strict: integer 5 is not in a list holding "5" |
| Prepare.MetaValuesWith | includes/sync/class-prepare.php:280-334 | PrepareMetaValues: value and raw are the serialized value; boolean is its FILTER_VALIDATE_BOOLEAN reading; long and double are present exactly for numeric values; date, datetime and time are present exactly for strings |
| Prepare.BooleanProjection | includes/sync/class-prepare.php:291 | for a string, boolean holds exactly when the trimmed, lowercased text is 1, true, on or yes |
| Prepare.DateFallback | includes/sync/class-prepare.php:316-330 | when strtotime fails a string gets `1971-01-01`, `1971-01-01 00:00:01` and `00:00:01` |
| Prepare.LongOfDigitsAsWritten | includes/sync/class-prepare.php:295-299 | as written, a stored decimal string gets long 0 when `intval` gives 0, that is when its value is 0 or overflows a double, and null otherwise |
| Prepare.LongNulledExample | includes/sync/class-prepare.php:297-298 | as written, the stored decimal "42" gets a null long |
| Prepare.LongIntended | includes/sync/class-prepare.php:28 | the intended long is an integer no larger than MAX_JAVA_INT, and is the integer value itself when that is no larger |
| Prepare.LongOfDigitsIntended | includes/sync/class-prepare.php:295-299 | as intended, a stored decimal string gets as long its value capped at MAX_JAVA_INT, or 0 once the value overflows a double; that is what `intval` already gives, so the cap never changes a string's value |
| Prepare.MapItemsAt | includes/sync/class-prepare.php:268 | mapping prepare_meta_values over an array keeps every key in its place and projects the value beside it |
| Prepare.PrepareMetaTypes | includes/sync/class-prepare.php:265-272 | the loop returns empty input as it is; otherwise it returns the input with the literal key 'key' set to the mapped last value |
| Prepare.MetaTypesOnlyKey | includes/sync/class-prepare.php:265-272 | after the meta-types loop, every key other than 'key' reads as before and 'key' reads as the mapped last value |
| Prepare.PrepareMetaTypesIntended | includes/sync/class-prepare.php:267-268 | as intended, each entry keeps its key and has its own value mapped |
| Calendar.Breakdown | includes/sync/class-prepare.php:170-179 | a timestamp breaks down into a valid calendar time that maps back to the same timestamp, with the weekday counted from the Thursday of 1970-01-01 |
| Calendar.IsoWeek | includes/sync/class-prepare.php:172 | the ISO-8601 week number is between 1 and 53 |
| Calendar.IsoWeekByThursday | includes/sync/class-prepare.php:172 | for a date whose weekday agrees with it, the `W` formula gives 1 + the Thursday's day of the year / 7, where the Thursday is that of the date's Monday-to-Sunday week, counted in the year (before, same or after) that holds it |
| Calendar.YearStringCast | includes/sync/class-prepare.php:170 | `(int)` of the printed year is the year read as a decimal: exact within 64 bits, saturated beyond, 0 past the double range |
| Calendar.YearMonthCast | includes/sync/class-prepare.php:180 | `(int)` of the printed year followed by the two-digit month is 100 * year + month, or 100 * year - month for a negative year, read as a decimal: exact within 64 bits, saturated beyond, 0 past the double range |
| Calendar.FieldCast | includes/sync/class-prepare.php:171-179 | `(int)` of a two-digit or unpadded field below 100 is the field |
| Calendar.UnpaddedCast | includes/sync/class-prepare.php:173 | `(int)` of an unpadded number below 1000 is the number |
| Base64.RoundTrip | includes/elasticsearch/class-request.php:120 | decoding the encoding of any byte string gives the string back |
| Base64.EncodeLength | includes/elasticsearch/class-request.php:120 | the encoding of n bytes has 4 * ceil(n / 3) characters |
| Base64.EncodeAlphabet | includes/elasticsearch/class-request.php:120 | the encoding uses only the alphabet of RFC 4648 and '=' |
| Base64.PaddingAtEnd | includes/elasticsearch/class-request.php:120 | after the first '=' every character is '=' |
| Base64.TestVectors | includes/elasticsearch/class-request.php:120 | "f", "fo" and "foo" encode as in section 10 of RFC 4648 |
| Request.ShieldHeaders | includes/elasticsearch/class-request.php:119-121 | FormatRequestHeaders: the Authorization header is there exactly when ES_SHIELD is defined and truthy, and it is then the only header, holding "Basic " and the Base64 of ES_SHIELD |
| Request.BasicAuthDecodes | includes/elasticsearch/class-request.php:120 | the header value starts with "Basic ", and the rest decodes to the credentials |
| Request.DefaultHeaders | includes/elasticsearch/class-request.php:108-125 | FormatRequestHeaders: with the identity filter, format_request_headers is empty unless ES_SHIELD is defined and neither "" nor "0", and is otherwise the Authorization header alone |
| Request.SentArgs | includes/elasticsearch/class-request.php:61 | the request arguments have `headers` replaced wholesale by format_request_headers, and every other argument is unchanged |
| Request.NonBlockingSent | includes/elasticsearch/class-request.php:61-86 | replacing the headers does not change whether the call is non-blocking |
| Request.Run | includes/elasticsearch/class-request.php:67-83 | the loop makes at least one attempt; it stops at the first success, which is below max(M, 1) failures, or once the failures reach max(M, 1); the URL is the one of the last attempt |
| Request.RemoteRequest | includes/elasticsearch/class-request.php:48-99 | with the fatal logging call taken as doing nothing, the loop returns the last attempt's result; the query record holds the caller's args, the last host and URL, `blocking` true, and the completion time unset (false) exactly in non-blocking mode |
| Request.AttemptBounds | includes/elasticsearch/class-request.php:67-83 | between 1 and max(M, 1) attempts are made |
| Request.AttemptCount | includes/elasticsearch/class-request.php:74-82 | attempts are failures plus one when the last attempt succeeded, and equal the failures (which are then max(M, 1)) otherwise |
| Request.SingleAttempt | includes/elasticsearch/class-request.php:77 | with the default maximum of 1, exactly one attempt is made, and its result is returned |
| Request.SuccessOnAttempt | includes/elasticsearch/class-request.php:67-83 | when attempt k is the first that succeeds, the call succeeds exactly when k is below the limit, and then after k + 1 attempts |
| Request.DefaultHost | includes/elasticsearch/class-request.php:68-69 | with the identity host filter the host stays the initial one, and the URL is the URL filter applied to esc_url of `trailingslashit(host)` followed by the path |
| Request.ThreeDigitCodes | includes/elasticsearch/class-request.php:74 | Succeeded: a three-digit response code counts as success exactly when it is between 200 and 209, so 226 and 299 are failures |
| Autoloader.Explode | includes/class-autoloader.php:27 | explode always gives at least one piece |
| Autoloader.ImplodeExplode | includes/class-autoloader.php:27 | joining the pieces with the separator gives back the class name |
| Autoloader.ExplodeSeparatorFree | includes/class-autoloader.php:27 | no piece contains the separator |
| Autoloader.Normalize | includes/class-autoloader.php:36-37 | each character is lowercased, and '_' becomes '-' |
| Autoloader.DirOfSegment | includes/class-autoloader.php:42-43 | a segment equal to `elasticsync` once normalised contributes nothing; any other segment contributes itself and '/' |
| Autoloader.DirsAppend | includes/class-autoloader.php:34-45 | Namespace: the namespace of concatenated segment lists is the concatenation, so directories keep their original order |
| Autoloader.ClassPath | includes/class-autoloader.php:22-24 | nothing is computed exactly when `ElasticSync` is not a case-sensitive substring of the class name |
| Autoloader.AutoloadClasses | includes/class-autoloader.php:20-48 | the reverse loop returns the path `ClassPath` defines, or none |
| Autoloader.PathShape | includes/class-autoloader.php:40-48 | Namespace and FileName: for two or more segments the path starts with `includes/` and ends with `/class-` + the normalised last segment + `.php` |
| Autoloader.EmptyNamespace | includes/class-autoloader.php:48 | with two segments the namespace is empty and the path is `includes//` followed by the file name |
| Autoloader.FirstSegmentIgnored | includes/class-autoloader.php:34 | segment 0 never contributes: replacing it leaves the path unchanged |
| Autoloader.PlainNamespace | includes/class-autoloader.php:42-48 | when the middle segments are non-empty and contain no '/', and the namespace is not empty, the path is `includes/`, the namespace and the file name |
| Autoloader.ThreeSegments | includes/class-autoloader.php:34-48 | `A\B\C` with B not `elasticsync` maps to `includes/` + b + `/class-` + c + `.php`, with b and c normalised |
| Autoloader.SyncPostPath | includes/class-autoloader.php:20-48 | `ElasticSync\Sync\Post` maps to `includes/sync/class-post.php` |
| Autoloader.RequestPath | includes/class-autoloader.php:20-48 | `ElasticSync\Elasticsearch\Request` maps to `includes/elasticsearch/class-request.php` |

## Left out

- WordPress and PHP library calls are closures in the record types named above or function arguments, never definitions. These are `get_post`, `get_userdata`, `get_post_meta`, `get_site_url`, `network_alias_url`, `get_current_blog_id`, `is_protected_meta`, `maybe_unserialize`, `serialize`, `strip_tags`, `strtotime`, `date_i18n`, `esc_url`, `ep_get_host` and `apply_filters`. The hooks also receive `$path`, `$args` and the post; the closures can depend on these values only where the model passes them.
- `wp_remote_request` is an oracle of attempt outcomes, because the network is outside the model.
- `microtime` is a parameter. The `time_start` field and the `query_args` field of the query record are not modelled, because the first is a clock reading and the second is only passed through.
- The undefined method `_add_query_log`: `Request` has no parent class and no `__call`, so as written lines 89 and 96 throw an `Error` on every call and `remote_request` never returns. The model treats the call as doing nothing and returns the response, with the query record beside it instead of logged.
- Floating point: the `double` projection is modelled by whether it is present, with `floatval` and `is_finite` as a parameter. The `(int)` cast of a float-form string such as "1e3" is delegated to a parameter.
- The body of `prepare` after its early bail, because it only assembles WordPress calls and ends in `var_dump`/`die`. `prepare_terms` is left out as unfinished.
- `prepare_meta` passes an undefined `$post_id`, hence null, to `get_post_meta`. WordPress returns false for an object id that is not numeric, and `(array) false` is `[0 => false]`, so as written `prepare_meta` never sees the post's meta: its loop runs once, over key 0 with value false. The model takes the array that call returns as its argument, so it covers both this input and the post's real meta.
- Prepare.PrepareMetaTypes: only array arguments are modelled. A non-array argument, for which the loop does nothing, is not covered.
- Prepare.AuthorDataFor: `instanceof` is modelled on the exact class name, so subclasses of `WP_User` are not covered.
- Prepare.LocalTime: the time zone of `date()` is a parameter giving an offset in seconds for each timestamp.
- Request.Run: the maximum-tries filter is modelled as returning an integer; other PHP types are not covered.
- A response code of `false`, which WP_Http::request returns for a non-blocking call, is not a case of the `Response` type. It takes the failure branch of line 74 like any code not starting with "20", so the oracle stands for it by such a code, and a non-blocking request is re-sent until the failure limit.
- Request.ShieldHeaders: `ES_SHIELD` is modelled as a string constant, and its bytes must each be below 256.
- The inclusion of the file by `include_file` is left out; `AutoloadClasses` returns the path, or none, instead.
- Autoloader.FileName: a single-segment name leaves the file name unassigned. It then interpolates as "", which is what the model does, with no precondition.
- The autoloader's own class file is loaded directly, so the path the function would give for it is never used.
- `class-sync.php`, `class-elasticsearch.php` and `class-post.php` are not part of this model: they only wire hooks and objects.

## Findings

| source | as written | input that shows it | evidently intended | confidence | as-written member | corrected member |
|---|---|---|---|---|---|---|
| includes/sync/class-prepare.php:268 | each pass assigns to the literal key 'key' | meta with entries `a` and `b` keeps both unchanged and gains `'key'` holding the projection of `b` | assign to the loop's own key, so that each entry is replaced by its projection | not executed | Prepare.PrepareMetaTypes | Prepare.PrepareMetaTypesIntended |
| includes/sync/class-prepare.php:297 | compares with the undefined `$max_java_int_value`, which is null, and assigns it | the stored value "42": null is less than every nonzero integer, so long becomes null | compare with and cap at `self::MAX_JAVA_INT` (line 28) | not executed | Prepare.LongNulledExample | Prepare.LongOfDigitsIntended |
| includes/sync/class-prepare.php:137 | `WP_User` unqualified inside namespace `ElasticSync\Sync` resolves to `ElasticSync\Sync\WP_User` | any user object get_userdata returns, of class `WP_User`, takes the not-found branch | test against the global class `\WP_User` | not executed | Prepare.AuthorNeverFound | Prepare.AuthorFoundIntended |
