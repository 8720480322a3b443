TestResult.DisplayName,TestResult.Outcome,TestResult.Duration,TestResult.ResourceCount,RandomSeed
Dynamo.RowValuesAt (correctness),Passed,00:00:00.2616709,606741,0
Dynamo.RowValuesAt (well-formedness),Passed,00:00:00.1184838,120027,0
