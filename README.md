# Skill frequencies by location and company

A Dafny model of the data pipeline behind the job-skills dashboard
(`skills_viz_app.py`). The dashboard reads a table with one row per
(job posting, extracted skill) pair and works in four steps:

1. **Clean.** It drops the rows that have no skill. A missing company name
   becomes `"Unknown"`.
2. **Selector options.** It builds one list of distinct locations and one of
   distinct companies. Each list is sorted in Python's string order, and the
   sentinel `"All"` is put first.
3. **Filter.** It applies an exact-equality mask on location and then one on
   company. The selection `"All"` switches a mask off.
4. **Rank.** It counts the rows per skill (`value_counts`), orders the
   counts largest first and keeps the first `top_n` (`head`).

It also derives a label for each selection and the name of the CSV download.

Modules, one per step:

- `Wrappers` (`wrappers.dfy`): `Option`. A pandas NaN cell is `None`.
- `Table` (`table.dfy`): the row type, the `"All"` sentinel and `Where`.
  `Where` is boolean-mask selection. Its lemmas cover membership, order,
  multiplicity (duplicates kept), identity and two masks in sequence.
- `Clean` (`clean.dfy`): the two cleaning statements, as a method with two
  loops that is proved against the function `Cleaned`.
- `Options` (`options.dfy`): Python's `str` ordering (`Less`), insertion into
  a strictly ascending list, and the two option lists.
- `Filter` (`filter.dfy`): the masks, as loops, and their conjunction.
  `Select` is the specification the filtering method is proved against.
- `Rank` (`rank.dfy`): counting, distinct skills in first-occurrence order,
  an insertion sort by count and the top-N cut, with the properties of the
  result.
- `Labels` (`labels.dfy`): selection labels and the download file name.
- `Dashboard` (`dashboard.dfy`): one run of the script, composed from the
  steps above, plus a worked four-row example.

A location or company whose value is literally `"All"` cannot be selected
on its own: choosing it switches the filter off, because the code compares
the selection with the sentinel before it masks. The model keeps this
behaviour (`Filter.Keeps`). In the same way, a location literally named
`"All Locations"` gets the same label as the sentinel
(`Labels.LabelCollision`).

Two facts about the code shape the ranking:
- The code raises no error for `top_n`. The slider limits it to 5..50, and
  `head(0)` would give an empty result. `top_n` is therefore a `nat` with no
  error path.
- `value_counts` promises no order for tied counts. The model proves only that
  counts are non-increasing and does not prove any tie-break.

## Model

| member | source | states |
|---|---|---|
| `Clean.FillCompany` | skills_viz_app.py:20 | the filled row has a company; a present company is unchanged, a missing one becomes "Unknown"; skill and location are untouched |
| `Clean.Cleaned` | skills_viz_app.py:19-20 | the cleaned table (rows with a skill, company filled): no longer than the raw table, and every row has a skill and a company; `Clean.CleanedRows` and `Clean.CleanedInOrder` pin it down exactly |
| `Clean.Clean` | skills_viz_app.py:19-20 | the drop-then-fill loops compute exactly `Cleaned(raw)`: rows with a skill, each with its company filled |
| `Clean.CleanedRows` | skills_viz_app.py:19-20 | after cleaning no row lacks a skill or a company; every row with a skill survives with its company filled, one whose company was present survives unchanged, and a row without a skill is gone |
| `Clean.CleanedInOrder` | skills_viz_app.py:19-20 | dropping and filling commute; the cleaned table is an order-preserving subsequence of the filled table, with one row per row that had a skill |
| `Options.Less` | skills_viz_app.py:26 | Python's `str <` used by `sorted`: a proper prefix is smaller, otherwise the first differing code point decides, and no string is less than itself; `LessIrreflexive`, `LessTransitive` and `LessTotal` make it a strict total order |
| `Options.AscendingPairwise` | skills_viz_app.py:26 | a strictly ascending option list is ordered pairwise and holds no value twice |
| `Options.AscendingUnique` | skills_viz_app.py:26 | two strictly ascending lists with the same values are equal, so the option list is fully determined by the distinct values |
| `Options.InsertSorted` | skills_viz_app.py:26 | inserting a value keeps the list strictly ascending and adds exactly that value |
| `Options.SortedUnique` | skills_viz_app.py:26 | `sorted(col.dropna().unique())` is strictly ascending and holds exactly the present values of the column |
| `Options.LocationOptions` | skills_viz_app.py:26-27 | the location list starts with "All", the rest is strictly ascending and holds exactly the distinct non-missing locations |
| `Options.CompanyOptions` | skills_viz_app.py:31-32 | the company list starts with "All", the rest is strictly ascending and holds exactly the distinct companies |
| `Table.Where` | skills_viz_app.py:42 | `df[mask]`: the rows satisfying the mask, never more rows than the table and only rows the mask accepts; `WhereMembership`, `WhereMultiset` and `WhereIsSubsequence` state membership, multiplicity and order |
| `Filter.Select` | skills_viz_app.py:39-45 | the rows passing both sidebar filters: no more rows than its input, each passing the location and the company filter; `Filter.SelectExactly` gives the converse, order and multiplicity |
| `Filter.Mask` | skills_viz_app.py:42-45 | one boolean-mask pass keeps exactly the rows whose column equals the value, in order |
| `Filter.ApplyFilters` | skills_viz_app.py:39-45 | the copy followed by the two optional masks yields exactly `Select`: the rows passing both filters, in order |
| `Table.WhereWhere` | skills_viz_app.py:41-45 | masking by location and then by company is masking once by their conjunction |
| `Filter.SelectAllIsIdentity` | skills_viz_app.py:39-45 | with "All" selected for both filters the cleaned table comes back unchanged |
| `Filter.SelectExactly` | skills_viz_app.py:41-45 | the filtered table is an order-preserving subsequence of its input; a row is in it iff (location is "All" or equal) and (company is "All" or equal), and a passing row occurs exactly as often as in the input (duplicates are kept) |
| `Filter.MissingLocationNeverMatches` | skills_viz_app.py:41-42 | a row with a missing location never passes a concrete location filter |
| `Rank.Count` | skills_viz_app.py:50 | the number of rows naming a skill, at most the number of rows |
| `Rank.CountIsMaskSize` | skills_viz_app.py:50 | the count of a skill is the size of the selection by the mask `extracted_skills == skill`, the group size `value_counts` reports |
| `Rank.SkillOrder` | skills_viz_app.py:49-50 | the distinct skills, each once, are exactly the skills with a positive count, as many as the set of skills |
| `Rank.Tally` | skills_viz_app.py:50 | `value_counts` before ordering: no skill twice, each entry a skill of the table paired with its exact count; `Rank.SortedTally` adds that every skill appears |
| `Rank.SortByCount` | skills_viz_app.py:50 | the sort is a permutation of the tally and orders it by count, largest first |
| `Rank.SortKeepsDistinct` | skills_viz_app.py:50 | sorting keeps skills pairwise distinct |
| `Rank.SortedTally` | skills_viz_app.py:49-50 | every sorted entry is a skill of the table with its exact count, no skill twice, every skill present |
| `Rank.TopSkills` | skills_viz_app.py:48-51 | the first min(top_n, number of skills) entries of the count-sorted tally: at most top_n entries, largest count first; `TopSkillsCounts`, `TopSkillsLength`, `TopSkillsTopN` and `TopSkillsTotal` state counts, length, the cut and the total |
| `Rank.TopSkillsCounts` | skills_viz_app.py:48-54 | reported skills are pairwise distinct and occur in the filtered rows, and each count equals the number of filtered rows with that skill and is at least 1 |
| `Rank.TopSkillsOrdered` | skills_viz_app.py:50 | the result is ordered by count, non-increasing |
| `Rank.TopSkillsLength` | skills_viz_app.py:50-51 | the result has min(top_n, number of distinct skills) entries; a table without skills gives an empty result |
| `Rank.TopSkillsTopN` | skills_viz_app.py:50-51 | a skill of the filtered rows left out of the result has a count no greater than every count kept |
| `Rank.TallyTotal` | skills_viz_app.py:49-50 | the counts of all distinct skills add up to the number of rows with a skill |
| `Rank.TopSkillsTotal` | skills_viz_app.py:48-51 | the reported counts add up to at most the number of rows with a skill, and exactly to it when top_n covers every skill |
| `Labels.Label` | skills_viz_app.py:57-58 | the label is the "all" text exactly when "All" or that very text is selected, and otherwise it is the selection |
| `Labels.LocationLabel` | skills_viz_app.py:57 | `loc_label` is never "All" and reads "All Locations" exactly when "All" or "All Locations" is selected |
| `Labels.CompanyLabel` | skills_viz_app.py:58 | `comp_label` is never "All" and reads "All Companies" exactly when "All" or "All Companies" is selected |
| `Labels.LabelMeaning` | skills_viz_app.py:57-58 | the label is "All Locations"/"All Companies" exactly when the selection is "All" or that very text, it is never "All", and otherwise it is the selection |
| `Labels.LabelCollision` | skills_viz_app.py:57-58 | two different selections share a label only when one is "All" and the other is the "all" text |
| `Labels.FileName` | skills_viz_app.py:84 | the name is "skills_", the location label, "_", the company label and ".csv", in that order, of exactly that length |
| `Labels.DownloadName` | skills_viz_app.py:84 | both selections concrete: `skills_<location>_<company>.csv`; both "All": `skills_All Locations_All Companies.csv` |
| `Labels.FileNameInjective` | skills_viz_app.py:84 | `skills_<loc>_<comp>.csv` determines both labels when the location label has no underscore |
| `Labels.FileNameAmbiguous` | skills_viz_app.py:84 | without that condition two label pairs can share a file name |
| `Labels.DownloadNameInjective` | skills_viz_app.py:84 | two selection pairs without underscores in the location share a download name only if each selection is the same or one is "All" and the other the matching "all" text |
| `Dashboard.Run` | skills_viz_app.py:19-84 | one run: both option lists start with "All", are strictly ascending and list exactly the distinct locations and companies of the cleaned table; the ranking is `TopSkills` of the filtered cleaned table; the file name is built from the two labels |
| `Dashboard.RemoteScenario` | skills_viz_app.py:39-54 | on four postings filtered on "Remote" the result is [(Python, 2), (SQL, 1)] |
| `Dashboard.AllScenario` | skills_viz_app.py:19-54 | the same four postings cleaned, unfiltered ("All", "All") and cut at top_n 2 give [(Python, 3), (SQL, 1)] |

## Left out

- `load_data`, `@st.cache_data` and the CSV download over HTTP (lines 11-16) are network I/O and caching. The table is a parameter.
- Streamlit widget wiring (page setup, sidebar, select boxes, slider, subheader, expander, download button) is UI. The selections and `top_n` are parameters. Only `Dashboard.Run` assumes the slider range 5..50.
- The select boxes only offer values from the option lists. The model accepts any selection string, which is more general.
- Plotting with matplotlib/seaborn (lines 62-73) is rendering and floating-point layout.
- CSV serialisation and UTF-8 encoding of the result (line 80) is a library call.
- `Rank.TopSkillsOrdered`: states only that counts are non-increasing. The model's sort happens to be stable, but pandas' order for tied counts is not modelled, so no tie order is proved.
- `head` with a negative argument drops entries from the end. That case is outside `top_n: nat`, and the slider never produces it.
- Cell values are modelled as strings. pandas' type inference on the CSV (numbers, dates) is not modelled.
- `Options.CompanyOptions`: requires every company to be present. The script calls it only after cleaning, and Python's `sorted` would fail on a mix of strings and NaN.
