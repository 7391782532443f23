# Weather and Calendar Notes — a Dafny model of its notes store and weather guard

The application is one Tkinter window with two panels. The notes panel keeps
an in-memory dictionary from a selected calendar date to a note. "Save Note"
rejects an empty note; otherwise it writes the note under the date and
rebuilds the list box, one `date: note` line per entry, in the dictionary's
iteration order. The weather panel rejects an empty city. Otherwise it asks
the weather provider and shows a two-line summary, the provider's error
message, or a fixed fallback text. If an exception is raised along the way,
it shows the fallback followed by the exception's text and logs the error.

The model has two modules:

- `CalendarNotes` (`notes.dfy`) covers the notes dictionary. It is modelled as
  the sequence of its keys in iteration order (`dates`) beside a
  `map<string, string>`. This is how Python's insertion-ordered `dict` behaves:
  writing to an existing key keeps that key where it was, and a new key goes
  last. The value view is the datatype `Store`, with `Put` for the upsert and
  `Rows` for the list box contents. The class `NotesPanel` holds the same state
  as fields, together with the list box (`listbox: seq<string>`). Its two
  methods are the callbacks `save_note` and `update_notes_list`, and each is
  proved against `Put` and `Rows`. The selected date is an opaque string,
  because the calendar widget formats it. The warning dialog is the `warned`
  result, and it comes with no state change.
- `Weather` (`weather.dfy`) is pure. `GetWeather` chooses the label text from
  the provider's reply. `UpdateWeather` adds the empty-city guard. The provider
  is a function from the request URL to a `Reply`.

## Model

| member | source | states |
|---|---|---|
| `CalendarNotes.NotesPanel.constructor` | gui_app.py:114-117 | The window starts with an empty dictionary and an empty list box, and the panel invariant holds. |
| `CalendarNotes.NotesPanel.SaveNote` | gui_app.py:47-54 | A note is saved exactly when it is non-empty. An empty note raises the warning and leaves the dictionary and the list box unchanged. Otherwise the new dictionary is `Put(old, date, note)`: the stored note for the date is the new one, and the list box again shows the dictionary. |
| `CalendarNotes.NotesPanel.UpdateNotesList` | gui_app.py:57-60 | After the call, the list box equals `Rows` of the dictionary, whatever it held before. So a second call gives the same list as one call. The dictionary is not touched. The loop invariant says that the first `i` lines are the lines of the first `i` dates. |
| `CalendarNotes.Put` | gui_app.py:53 | After `notes[d] = n`, `d` maps to `n`. Every other date is present afterwards exactly when it was present before, and keeps its note. A well-formed ordered dictionary stays well formed: the keys are still distinct and are exactly the listed dates. |
| `CalendarNotes.PutNewDate` | gui_app.py:53 | Saving for a date not yet stored appends that date at the end of the iteration order. The entry count goes up by exactly one, and the list box gains exactly one line, `d: n`, at the end. |
| `CalendarNotes.PutKnownDate` | gui_app.py:53 | Saving for a stored date leaves the iteration order and the entry count unchanged. The date's line changes in place, to `d: n`, and every other line stays as it was. |
| `CalendarNotes.RowsAgree` | gui_app.py:57-60 | The list box has as many lines as the dictionary has entries. Line `i` is `date + ": " + note` for the `i`-th date in iteration order. Every stored date has exactly one line, and that line shows its note. |
| `CalendarNotes.RowsOfAt` | gui_app.py:59-60 | Row `i` of the rebuilt list is the line of the `i`-th key in iteration order. |
| `CalendarNotes.Rows` | gui_app.py:57-60 | The list box after a rebuild has exactly one line per stored date: as many lines as dates in the iteration order, and as many as entries. |
| `CalendarNotes.RowsOf` | gui_app.py:59-60 | The rebuild produces exactly one line per key. |
| `CalendarNotes.RowsDetermineNotes` | gui_app.py:57-60 | Take two dictionaries with the same iteration order. If their list boxes show the same lines, the dictionaries are equal. |
| `CalendarNotes.StoreSize` | gui_app.py:53 | In a well-formed dictionary, where each key is listed exactly once, the number of entries equals the number of dates in the iteration order. |
| `CalendarNotes.Line` | gui_app.py:60 | A line is the date, then `": "`, then the note. Each part can be read back from its position. |
| `Weather.GetWeather` | gui_app.py:21-35 | A reply with a status other than 200 shows the body's `message` if there is one, and otherwise `Error fetching weather data`; nothing is logged. A 200 reply with both readings shows the temperature and description summary. Something is logged exactly when an exception was raised: in the request, in JSON decoding, or while reading a 200 body (a missing key, an empty `weather` list, a `temp` that is not a number). In that case the label reads `Error fetching weather data: ` followed by the exception text. |
| `Weather.Summary` | gui_app.py:28-29 | The label text for a readable status-200 reply is `Temperature: `, then the Celsius text, then `°C`, a newline and `Weather: `, then the description. Each part can be read back from its position. |
| `Weather.Failure` | gui_app.py:33 | The label text after a caught exception is `Error fetching weather data`, then `: `, then the exception's text. Each part can be read back from its position. |
| `Weather.UpdateWeather` | gui_app.py:38-44 | An empty city raises the warning, makes no request and leaves the label as it was. Any other city makes exactly one request, to the URL for that city and key. The label then shows `GetWeather` of the provider's reply. |
| `Weather.RequestUrl` | gui_app.py:15 | The request URL is the provider's endpoint, then the city verbatim after `q=` in the URL string, then exactly `&appid=`, then the API key. What the provider makes of a city containing `&` or `#` is left to the provider function. |

## Left out

- Widget construction, layout, fonts and styling (gui_app.py:74-115) are UI only. The `messagebox` warnings become the `warned` result, with no state change.
- The HTTP call `requests.get` and `response.json()` (gui_app.py:23-24) are network I/O in a foreign library. The provider is a function parameter that returns a `Reply`. A `Reply` either raised an exception or carries a status, an optional `message` string and the readings.
- The Kelvin-to-Celsius conversion and the `:.2f` formatting (gui_app.py:27-29) are floating point and Python format semantics. The reply carries the formatted Celsius text as an opaque string.
- Weather.GetWeather: it assumes that a JSON body is an object whose `message` field, when present, is a string. A `null` message is not modelled: `.get` would return `None`, and `weather_label.config(text=None)` would then leave the label showing its previous text, because Tkinter drops options whose value is `None`. Neither is a non-object body, on which `.get` would raise.
- `log_error` (gui_app.py:69-71) appends to a file and reads `datetime.now()`, which is I/O and nondeterministic. The model records only which error text would be logged.
- `refresh_data` and the `root.after` timer (gui_app.py:63-66, gui_app.py:120) are event-loop scheduling with no logic of their own.
- Loading the environment with dotenv and the start-up `ValueError` for a missing key (gui_app.py:11-18) are configuration I/O. The API key is a parameter.
- The debug `print` (gui_app.py:25) and the unused `threading` import (gui_app.py:5) are left out.
