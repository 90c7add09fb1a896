# turbo.py domain scanner — a Dafny model

`turbo.py` looks for domain names worth registering. It builds a list of
candidates. The list starts with the non-blank lines of `domains.txt`. Then
come all `word.tld` combinations of the non-blank lines of `wordlist.txt` and
`tld.txt`. Each candidate then goes through a three-step priority chain:

1. If DNS cannot resolve the name, the candidate is *available*.
2. Otherwise, if its WHOIS expiration date is at most 30 days away (or already
   past), it is *coming soon*. The line kept for it is
   `"<domain> - expires on <date>"`.
3. Otherwise the HTTP probe is asked whether the site answers with status 200.
   This only produces a console message.

The model is a set of pure functions:

- `options.dfy`: `Option`.
- `seqs.dfy`: `FilterMap`. This is Python's filtered list comprehension
  `[g(x) for x in s if p(x)]`, and the file proves its algebra.
- `text.dfy`: `str.strip` over the ASCII whitespace set.
- `generator.dfy`: the following pieces.
  - The line filtering at turbo.py:49-50 and 62.
  - The cross product at line 51.
  - `generate_domains`.
  - The candidate list of `main` at lines 61-65.
- `whois.dfy`: the decision made by `check_whois_expiration`.
- `driver.dfy`: the scan loop of `main`. DNS, WHOIS, the clock, HTTP and date
  rendering are function-valued oracles (`Driver.Oracles`).

The loop is `Driver.ScanFrom`, an accumulating fold. Its outputs are related
to independent reference definitions: one `FilterMap` selection per output
list.

DNS is three-valued. turbo.py:15 catches only `socket.gaierror`. Any other
exception from `gethostbyname` is not caught. One example is the `UnicodeError`
raised for a name with an empty label, such as `a..com`. Such an exception
leaves `main` before either output file is written. The model calls this
outcome `Run.Aborted`.

## Model

| member | source | states |
|---|---|---|
| Seqs.FilterMap | turbo.py:49-50 | a filtered comprehension keeps at most as many items as it reads, and every kept item comes from some input item |
| Text.Strip | turbo.py:49-50 | the stripped line has no whitespace at either end, and it is empty exactly when the line is all whitespace |
| Text.StripDecompose | turbo.py:49 | every line is its leading whitespace, then its stripped text, then its trailing whitespace |
| Text.StripPadded | turbo.py:49 | stripping returns the original text when only whitespace was added around clean text (a word followed by its newline gives back the word) |
| Text.StripIdempotent | turbo.py:49 | stripping twice gives the same result as stripping once |
| Generator.KeepStripped | turbo.py:49-50 | the kept entries are non-empty and stripped, and there are no more of them than input lines |
| Generator.KeepStrippedMembers | turbo.py:49-50 | a string is kept exactly when it is non-empty and is the stripped form of some input line |
| Generator.KeepStrippedSkipsBlank | turbo.py:49-50 | a whitespace-only line contributes nothing: removing it leaves the list unchanged |
| Generator.KeepStrippedClean | turbo.py:62 | lines that are already clean and non-blank come back unchanged and in order |
| Generator.CrossProduct | turbo.py:51 | the product has one entry per (word, tld) pair |
| Generator.CrossProductAt | turbo.py:51 | position i·\|tlds\|+j holds word i, a dot, then tld j (words outer, tlds inner) |
| Generator.CrossProductIndex | turbo.py:51 | each position k holds word k div \|tlds\| joined to tld k mod \|tlds\| |
| Generator.CrossProductMembers | turbo.py:51 | a name is generated exactly when it is some word, a dot, then some tld |
| Generator.GenerateDomains | turbo.py:46-51 | the number of generated names is the number of kept words times the number of kept tlds |
| Generator.GenerateDomainsEmpty | turbo.py:49-51 | nothing is generated exactly when the word file or the tld file has no non-blank line |
| Generator.GenerateDomainsAt | turbo.py:49-51 | for every kept word i and kept tld j, the entry at row-major position (i, j) is that word, a dot, then that tld |
| Generator.GenerateDomainsClean | turbo.py:49-51 | every generated name is non-empty, stripped and contains a dot |
| Generator.GenerateDomainsExample | turbo.py:46-51 | two words and a tld file with a blank line in it give the four names in word-major order |
| Generator.Candidates | turbo.py:61-65 | there are as many candidates as kept domain lines plus kept words times kept tlds, and each is non-empty and stripped |
| Generator.CandidatesKeepDuplicates | turbo.py:62-65 | concatenation drops nothing: the candidates hold, as a multiset, exactly both parts, duplicates included |
| Whois.CheckExpiration | turbo.py:19-35 | a date is reported exactly when the reply is a record with a first date that the clock can compare; that date is the first one; the flag is raised exactly when it is at most 30 days away |
| Whois.OnlyFirstDateCounts | turbo.py:24-26 | a list of dates is judged by its first date alone, as if that date stood by itself |
| Whois.FailuresGiveNothing | turbo.py:25-35 | a failed lookup, a missing field, an empty list or a clock failure each give (False, None) |
| Whois.PastDateIsSoon | turbo.py:29-31 | a date already past is flagged and returned |
| Whois.SoonStaysSoon | turbo.py:29-31 | a flagged date stays flagged for any clock that puts it no further away |
| Driver.StepExtends | turbo.py:72-82 | one loop pass appends to each list exactly what that candidate's selection gives |
| Driver.ScanFrom | turbo.py:72-82 | the loop completes exactly when no remaining candidate makes the resolver raise; an abort names the first such candidate; on completion each list grows by its reference selection over the remaining candidates |
| Driver.Scan | turbo.py:68-82 | the same, starting from empty lists: completion exactly when no candidate makes the resolver raise, an abort at the first one that does, and each list equal to its reference selection |
| Driver.ScanAvailableExactly | turbo.py:72-75 | available holds exactly the candidates DNS could not find, each as many times as it occurs among the candidates |
| Driver.ScanAvailableOrder | turbo.py:72-74 | two unresolvable candidates appear in available in their candidate order |
| Driver.ScanComingSoonExactly | turbo.py:76-79 | a coming-soon line exists exactly for each resolved candidate whose first WHOIS date is at most 30 days away, and the line carries that date |
| Driver.ScanComingSoonOrder | turbo.py:72-79 | coming-soon lines keep the candidates' order |
| Driver.ScanProbedExactly | turbo.py:76-82 | HTTP is asked about exactly the resolved candidates that are not expiring soon |
| Driver.ScanActiveExactly | turbo.py:81-82 | the active report holds exactly the probed candidates whose HTTP answer is status 200 |
| Driver.ScanDisjoint | turbo.py:72-80 | every coming-soon line belongs to a candidate that is not in available |
| Driver.ScanPartition | turbo.py:72-82 | each candidate occurrence is selected for exactly one of available, coming soon and probed, so the three sizes add up to the number of candidates |
| Driver.ClassifyIgnoresHttp | turbo.py:81-82 | the HTTP answer cannot move a candidate into or out of available or coming soon |
| Driver.ScanIgnoresHttp | turbo.py:81-82 | changing every HTTP answer changes neither whether the run completes, nor the two output lists, nor which candidates are probed |
| Driver.ScanSelects | turbo.py:72-82 | a completed scan's available, coming-soon, probed and active lists are exactly the filtered selections of the candidates, in candidate order |
| Driver.ScanAppend | turbo.py:72-82 | when the scan of a concatenation completes, both parts' scans complete, and each of its four lists is the first part's list followed by the second part's |
| Driver.ScanAppendAborted | turbo.py:72-82 | when the scan of a concatenation aborts, it aborts exactly as the first part's scan does, or, if that one completes, exactly as the second part's scan does |
| Driver.Sweep | turbo.py:61-82 | a completed run writes only clean names to available, and the lists' sizes add up to the number of kept domain lines plus words times tlds |
| Driver.ScanExample | turbo.py:72-82 | one candidate per branch of the chain ends up in the list the script puts it in |

## Left out

- DNS, WHOIS and HTTP requests (turbo.py:9-17, 22, 37-44) are network calls. They are oracle fields of `Driver.Oracles`. An HTTP timeout or a `RequestException` is simply a `false` answer. turbo.py:43 catches only `requests.RequestException`, so any other exception from `requests.get` would end the run; such exceptions are assumed not to occur, since `httpOk` always answers.
- Driver.Oracles: every lookup is assumed to give the same answer for the same name throughout a run. The script sends DNS, WHOIS and HTTP queries again for each repeated occurrence of a name (turbo.py:72-81), and a second answer could differ. `daysUntil` likewise reads one fixed `now` for the whole scan, while turbo.py:29 calls `datetime.now()` again for each registered candidate. The per-name statements of `ScanAvailableExactly`, `ScanComingSoonExactly`, `ScanProbedExactly` and `ScanActiveExactly` rely on this.
- `datetime.now()` and `timedelta.days` (turbo.py:29) are the clock oracle `daysUntil`. Its `None` stands for a subtraction that raised, which the handler at line 33 catches.
- How a date is rendered inside an f-string (line 79) is the oracle `dateText`.
- WHOIS field values other than a date, a list of dates or no value are not modelled. Examples are a string date, or `None` inside a list. Python would compare or subtract them in ways that depend on the library.
- Text.Strip: the whitespace set is the ASCII part of Python's `str.isspace` (space, 9–13 and 28–31). Non-ASCII Unicode whitespace is not modelled.
- Reading the three input files (lines 48, 61) is not modelled: the model takes their lines as sequences of strings.
- Writing `available.txt` and `comingsoon.txt` (lines 84-95) is not modelled. The file contents are the final `available` and `comingsoon` lists, one entry per line.
- Console messages (lines 34, 75, 80, 82, 94-95) are not modelled. The `probed` and `active` lists stand in for the HTTP step, whose only effect is the message at line 82.
- Timing, the 3-second HTTP timeout and concurrency are not modelled; the script is sequential.
